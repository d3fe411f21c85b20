/** Masking secrets in UTF-8 text so that every later position stays where it was: byte offsets,
    UTF-16 offsets and line breaks. A text is a sequence of code points, `Bytes` its encoding
    (section 3 of RFC 3629); UTF-16 widths are those of section 2.1 of RFC 2781. */
module Redaction {
  import opened Sequences

  type byte = x: int | 0 <= x < 256

  // ----- code points and their encoding

  predicate IsScalar(c: int) { 0 <= c < 0x110000 && !(0xD800 <= c < 0xE000) }

  ghost predicate ValidText(t: seq<int>) { forall i :: 0 <= i < |t| ==> IsScalar(t[i]) }

  function Encode(c: int): (b: seq<byte>)
    requires IsScalar(c)
    ensures 1 <= |b| <= 4
  {
    if c < 0x80 then [c]
    else if c < 0x800 then [0xC0 + c / 64, 0x80 + c % 64]
    else if c < 0x10000 then [0xE0 + c / 4096, 0x80 + c / 64 % 64, 0x80 + c % 64]
    else [0xF0 + c / 262144, 0x80 + c / 4096 % 64, 0x80 + c / 64 % 64, 0x80 + c % 64]
  }

  const RUNE_ERROR := 0xFFFD

  predicate InRange(b: seq<byte>, i: nat, low: int, high: int) { i < |b| && low <= b[i] <= high }

  predicate Continues(b: seq<byte>, i: nat) { InRange(b, i, 0x80, 0xBF) }

  /** The payload of a continuation byte. */
  function Low(b: seq<byte>, i: nat): int
    requires i < |b|
  {
    var x: int := b[i];
    x - 0x80
  }

  /** `utf8.DecodeRune`: the first code point and its size, or the error rune with size 1. */
  function DecodeRune(b: seq<byte>): (r: (int, nat))
    requires b != []
    ensures IsScalar(r.0) && 1 <= r.1 <= |b|
  {
    var b0: int := b[0];
    if b0 < 0x80 then (b0, 1)
    else if 0xC2 <= b0 <= 0xDF && Continues(b, 1) then
      ((b0 - 0xC0) * 64 + Low(b, 1), 2)
    else if 0xE0 <= b0 <= 0xEF && InRange(b, 1, if b0 == 0xE0 then 0xA0 else 0x80, if b0 == 0xED then 0x9F else 0xBF) && Continues(b, 2) then
      ((b0 - 0xE0) * 4096 + Low(b, 1) * 64 + Low(b, 2), 3)
    else if 0xF0 <= b0 <= 0xF4 && InRange(b, 1, if b0 == 0xF0 then 0x90 else 0x80, if b0 == 0xF4 then 0x8F else 0xBF)
            && Continues(b, 2) && Continues(b, 3) then
      ((b0 - 0xF0) * 262144 + Low(b, 1) * 4096 + Low(b, 2) * 64 + Low(b, 3), 4)
    else (RUNE_ERROR, 1)
  }

  lemma Digits(c: int)
    requires 0 <= c < 0x110000
    ensures c == c / 64 * 64 + c % 64
    ensures c / 64 == c / 4096 * 64 + c / 64 % 64
    ensures c / 4096 == c / 262144 * 64 + c / 4096 % 64
  {
    assert c / 64 / 64 == c / 4096 && c / 4096 / 64 == c / 262144;
  }

  lemma DecodeTwo(c: int, b: seq<byte>)
    requires 0x80 <= c < 0x800 && |b| >= 2 && b[0] == 0xC0 + c / 64 && b[1] == 0x80 + c % 64
    ensures DecodeRune(b) == (c, 2)
  {
  }

  lemma DecodeThree(c: int, b: seq<byte>)
    requires 0x800 <= c < 0x10000 && IsScalar(c) && |b| >= 3
    requires b[0] == 0xE0 + c / 4096 && b[1] == 0x80 + c / 64 % 64 && b[2] == 0x80 + c % 64
    ensures DecodeRune(b) == (c, 3)
  {
    Digits(c);
  }

  lemma DecodeFour(c: int, b: seq<byte>)
    requires 0x10000 <= c < 0x110000 && |b| >= 4
    requires b[0] == 0xF0 + c / 262144 && b[1] == 0x80 + c / 4096 % 64 && b[2] == 0x80 + c / 64 % 64 && b[3] == 0x80 + c % 64
    ensures DecodeRune(b) == (c, 4)
  {
    Digits(c);
  }

  /** Decoding undoes encoding, whatever follows. */
  lemma DecodeEncoded(c: int, rest: seq<byte>)
    requires IsScalar(c)
    ensures DecodeRune(Encode(c) + rest) == (c, |Encode(c)|)
  {
    var b := Encode(c) + rest;
    if 0x80 <= c < 0x800 {
      DecodeTwo(c, b);
    } else if 0x800 <= c < 0x10000 {
      DecodeThree(c, b);
    } else if 0x10000 <= c {
      DecodeFour(c, b);
    }
  }

  function Bytes(t: seq<int>): seq<byte>
    requires ValidText(t)
  {
    if t == [] then [] else Encode(t[0]) + Bytes(t[1..])
  }

  function Units(c: int): nat { if c < 0x10000 then 1 else 2 }

  function Utf16Length(t: seq<int>): nat { if t == [] then 0 else Units(t[0]) + Utf16Length(t[1..]) }

  /** The byte offset of the boundary before code point `i`. */
  function Offset(t: seq<int>, i: nat): nat
    requires ValidText(t) && i <= |t|
  {
    |Bytes(t[..i])|
  }

  function IsBreak(c: int): bool { c == 10 || c == 13 }

  lemma {:induction false} BytesAppend(a: seq<int>, b: seq<int>)
    requires ValidText(a) && ValidText(b)
    ensures Bytes(a + b) == Bytes(a) + Bytes(b)
  {
    if a == [] {
      assert a + b == b;
    } else {
      assert (a + b)[1..] == a[1..] + b;
      BytesAppend(a[1..], b);
    }
  }

  lemma BytesSplit(t: seq<int>, i: nat, j: nat)
    requires ValidText(t) && i <= j <= |t|
    ensures Offset(t, i) <= Offset(t, j) <= |Bytes(t)|
    ensures Bytes(t)[..Offset(t, i)] == Bytes(t[..i])
    ensures Bytes(t)[Offset(t, i)..Offset(t, j)] == Bytes(t[i..j])
    ensures Bytes(t)[Offset(t, j)..] == Bytes(t[j..])
  {
    assert t == t[..j] + t[j..] && t[..j] == t[..i] + t[i..j];
    BytesAppend(t[..j], t[j..]);
    BytesAppend(t[..i], t[i..j]);
  }

  // ----- the masks

  /** `maskRune`: a code point of the same byte and UTF-16 width. */
  function MaskRune(c: int): int {
    if IsBreak(c) then c
    else if c < 0x80 then 0x2A
    else if c < 0x800 then 0xA2
    else if c < 0x10000 then 0xFF0A
    else 0x10348
  }

  lemma MaskRuneKeepsWidth(c: int)
    requires IsScalar(c)
    ensures IsScalar(MaskRune(c)) && |Encode(MaskRune(c))| == |Encode(c)| && Units(MaskRune(c)) == Units(c)
    ensures MaskRune(MaskRune(c)) == MaskRune(c)
    ensures IsBreak(MaskRune(c)) <==> IsBreak(c)
    ensures IsBreak(c) ==> MaskRune(c) == c
  {
  }

  function Stars(n: nat): seq<byte> { seq(n, _ => 0x2A) }

  /** What `maskRange` writes over one decoded code point. */
  function Replacement(c: int, size: nat): (b: seq<byte>)
    requires IsScalar(c)
    ensures |b| == size
  {
    MaskRuneKeepsWidth(c);
    if |Encode(MaskRune(c))| == size then Encode(MaskRune(c)) else Stars(size)
  }

  function MaskBytes(b: seq<byte>): (m: seq<byte>)
    ensures |m| == |b|
  {
    if b == [] then []
    else
      var (c, size) := DecodeRune(b);
      Replacement(c, size) + MaskBytes(b[size..])
  }

  function MaskedRange(data: seq<byte>, start: int, end: int): (m: seq<byte>)
    ensures |m| == |data|
  {
    if start < 0 || end > |data| || start >= end then data
    else data[..start] + MaskBytes(data[start..end]) + data[end..]
  }

  /** Overwrites the range in place; on any bytes the length and everything outside the range stay. */
  method MaskRange(data: array<byte>, start: int, end: int)
    modifies data
    ensures data[..] == MaskedRange(old(data[..]), start, end)
  {
    if start < 0 || end > data.Length || start >= end {
      return;
    }
    MaskSlice(data, start, end);
    assert data[..] == data[..end] + data[end..];
    assert data[end..] == old(data[end..]);
  }

  /** The loop over the code points of a range that passed the bounds check. */
  method MaskSlice(data: array<byte>, start: nat, end: nat)
    requires start < end <= data.Length
    modifies data
    ensures data[..end] == old(data[..start]) + MaskBytes(old(data[start..end]))
    ensures forall k :: end <= k < data.Length ==> data[k] == old(data[k])
  {
    var index := start;
    ghost var rest := data[start..end];
    ghost var whole := data[..start] + MaskBytes(rest);
    while index < end
      invariant start <= index <= end
      invariant forall k :: end <= k < data.Length ==> data[k] == old(data[k])
      invariant rest == data[index..end] && data[..index] + MaskBytes(rest) == whole
      decreases end - index
    {
      index := MaskOne(data, index, end);
      rest := data[index..end];
    }
    assert rest == [];
  }

  /** One turn of the loop: the first code point at `index` is overwritten. */
  method MaskOne(data: array<byte>, index: nat, end: nat) returns (next: nat)
    requires index < end <= data.Length
    modifies data
    ensures index < next <= end && forall k :: next <= k < data.Length ==> data[k] == old(data[k])
    ensures data[..next] + MaskBytes(data[next..end]) == old(data[..index]) + MaskBytes(old(data[index..end]))
  {
    ghost var was := data[..];
    var (runeValue, size) := DecodeRune(data[index..end]);
    WriteMask(data, index, runeValue, size);
    next := index + size;
    Overwritten(was, data[..], index, Replacement(runeValue, size), end);
    assert was[index..end] == old(data[index..end]) && was[..index] == old(data[..index]);
    assert data[..][next..end] == data[next..end] && data[..][..next] == data[..next];
    assert forall k :: next <= k < data.Length ==> data[k] == data[..][k];
    MaskBytesStep(old(data[index..end]), data[next..end]);
    ConcatAssociative(was[..index], Replacement(runeValue, size), MaskBytes(data[next..end]));
  }

  /** What overwriting `part` at `index` leaves where it was. */
  lemma Overwritten(was: seq<byte>, now: seq<byte>, index: nat, part: seq<byte>, end: nat)
    requires index + |part| <= end <= |was| && now == was[..index] + part + was[index + |part|..]
    ensures |now| == |was| && now[..index + |part|] == was[..index] + part
    ensures now[index + |part|..end] == was[index..end][|part|..]
    ensures forall k :: index + |part| <= k < |was| ==> now[k] == was[k]
  {
  }

  lemma MaskBytesStep(b: seq<byte>, rest: seq<byte>)
    requires b != [] && rest == b[DecodeRune(b).1..]
    ensures MaskBytes(b) == Replacement(DecodeRune(b).0, DecodeRune(b).1) + MaskBytes(rest)
  {
  }

  /** The two branches of the loop body: copy the mask, or fill with stars when it does not fit. */
  method WriteMask(data: array<byte>, index: nat, runeValue: int, size: nat)
    requires IsScalar(runeValue) && index + size <= data.Length
    modifies data
    ensures data[..] == old(data[..index]) + Replacement(runeValue, size) + old(data[index + size..])
  {
    MaskRuneKeepsWidth(runeValue);
    var replacement := Encode(MaskRune(runeValue));
    var fits := |replacement| == size;
    for offset := 0 to size
      invariant data[..index] == old(data[..index]) && data[index + size..] == old(data[index + size..])
      invariant forall k :: 0 <= k < offset ==> data[index + k] == Replacement(runeValue, size)[k]
    {
      data[index + offset] := if fits then replacement[offset] else 0x2A;
    }
    assert data[..] == data[..index] + data[index..index + size] + data[index + size..];
    assert data[index..index + size] == Replacement(runeValue, size);
  }

  function MaskedText(b: seq<byte>): seq<byte> {
    if b == [] then []
    else
      var (c, size) := DecodeRune(b);
      MaskRuneKeepsWidth(c);
      Encode(MaskRune(c)) + MaskedText(b[size..])
  }

  method MaskText(text: seq<byte>) returns (masked: seq<byte>)
    ensures masked == MaskedText(text)
  {
    masked := [];
    var index := 0;
    while index < |text|
      invariant 0 <= index <= |text|
      invariant masked + MaskedText(text[index..]) == MaskedText(text)
    {
      var mask;
      mask, index := NextMask(text, index);
      masked := masked + mask;
    }
  }

  method NextMask(text: seq<byte>, index: nat) returns (mask: seq<byte>, next: nat)
    requires index < |text|
    ensures index < next <= |text| && MaskedText(text[index..]) == mask + MaskedText(text[next..])
  {
    var (runeValue, size) := DecodeRune(text[index..]);
    MaskRuneKeepsWidth(runeValue);
    mask, next := Encode(MaskRune(runeValue)), index + size;
    assert text[index..][size..] == text[next..];
  }

  // ----- masking code points

  /** `t` with the code points at the positions `mask` selects masked. */
  function MaskWhere(t: seq<int>, mask: nat -> bool): (u: seq<int>)
    ensures |u| == |t| && forall k: nat :: k < |t| ==> u[k] == if mask(k) then MaskRune(t[k]) else t[k]
  {
    seq(|t|, k requires 0 <= k < |t| => if mask(k) then MaskRune(t[k]) else t[k])
  }

  function Everywhere(k: nat): bool { true }

  lemma MaskWhereValid(t: seq<int>, mask: nat -> bool)
    requires ValidText(t)
    ensures ValidText(MaskWhere(t, mask))
  {
    forall k | 0 <= k < |t|
      ensures IsScalar(MaskWhere(t, mask)[k])
    {
      MaskRuneKeepsWidth(t[k]);
    }
  }

  /** On valid UTF-8 both mask functions mask every code point. */
  lemma {:induction false} MaskWholeText(t: seq<int>)
    requires ValidText(t)
    ensures ValidText(MaskWhere(t, Everywhere))
    ensures MaskBytes(Bytes(t)) == Bytes(MaskWhere(t, Everywhere)) == MaskedText(Bytes(t))
  {
    MaskWhereValid(t, Everywhere);
    if t != [] {
      var c := t[0];
      MaskRuneKeepsWidth(c);
      DecodeEncoded(c, Bytes(t[1..]));
      var b, u := Bytes(t), MaskWhere(t, Everywhere);
      assert b == Encode(c) + Bytes(t[1..]);
      assert b[|Encode(c)|..] == Bytes(t[1..]);
      MaskWholeText(t[1..]);
      assert u[1..] == MaskWhere(t[1..], Everywhere);
      assert Bytes(u) == Encode(MaskRune(c)) + Bytes(u[1..]);
    }
  }

  ghost predicate SamePositions(t: seq<int>, u: seq<int>) {
    && ValidText(t) && ValidText(u) && |u| == |t| && |Bytes(u)| == |Bytes(t)|
    && (forall i: nat :: i <= |t| ==> Offset(u, i) == Offset(t, i) && Utf16Length(u[..i]) == Utf16Length(t[..i]))
    && (forall i :: 0 <= i < |t| ==> (IsBreak(u[i]) <==> IsBreak(t[i])) && (IsBreak(t[i]) ==> u[i] == t[i]))
  }

  lemma {:induction false} MaskKeepsLengths(t: seq<int>, mask: nat -> bool)
    requires ValidText(t)
    ensures ValidText(MaskWhere(t, mask))
    ensures |Bytes(MaskWhere(t, mask))| == |Bytes(t)| && Utf16Length(MaskWhere(t, mask)) == Utf16Length(t)
  {
    MaskWhereValid(t, mask);
    if t != [] {
      MaskRuneKeepsWidth(t[0]);
      var shifted := (k: nat) => mask(k + 1);
      assert MaskWhere(t, mask)[1..] == MaskWhere(t[1..], shifted);
      MaskKeepsLengths(t[1..], shifted);
    }
  }

  /** Whatever is masked, every boundary keeps its byte and UTF-16 offset and every line break stays. */
  lemma MaskKeepsPositions(t: seq<int>, mask: nat -> bool)
    requires ValidText(t)
    ensures SamePositions(t, MaskWhere(t, mask))
  {
    MaskKeepsLengths(t, mask);
    var u := MaskWhere(t, mask);
    forall i: nat | i <= |t|
      ensures Offset(u, i) == Offset(t, i) && Utf16Length(u[..i]) == Utf16Length(t[..i])
    {
      assert u[..i] == MaskWhere(t[..i], mask);
      MaskKeepsLengths(t[..i], mask);
    }
    forall i | 0 <= i < |t|
      ensures (IsBreak(u[i]) <==> IsBreak(t[i])) && (IsBreak(t[i]) ==> u[i] == t[i])
    {
      MaskRuneKeepsWidth(t[i]);
    }
  }

  function Within(i: nat, j: nat): nat -> bool { (k: nat) => i <= k < j }

  /** Masking a byte range that lies on code-point boundaries masks exactly those code points. */
  lemma MaskedRangeOnBoundaries(t: seq<int>, i: nat, j: nat)
    requires ValidText(t) && i <= j <= |t|
    ensures ValidText(MaskWhere(t, Within(i, j)))
    ensures MaskedRange(Bytes(t), Offset(t, i), Offset(t, j)) == Bytes(MaskWhere(t, Within(i, j)))
  {
    MaskWhereValid(t, Within(i, j));
    if i == j {
      assert MaskWhere(t, Within(i, j)) == t;
    } else {
      NonEmptyBytes(t, i, j);
      BytesSplit(t, i, j);
      MaskWhereParts(t, i, j);
      MaskedParts(t[..i], t[i..j], t[j..]);
    }
  }

  lemma MaskedParts(a: seq<int>, b: seq<int>, c: seq<int>)
    requires ValidText(a) && ValidText(b) && ValidText(c)
    ensures ValidText(a + MaskWhere(b, Everywhere) + c)
    ensures Bytes(a) + MaskBytes(Bytes(b)) + Bytes(c) == Bytes(a + MaskWhere(b, Everywhere) + c)
  {
    MaskWholeText(b);
    BytesOfParts(a, MaskWhere(b, Everywhere), c);
  }

  lemma BytesOfParts(a: seq<int>, b: seq<int>, c: seq<int>)
    requires ValidText(a) && ValidText(b) && ValidText(c)
    ensures ValidText(a + b + c) && Bytes(a + b + c) == Bytes(a) + Bytes(b) + Bytes(c)
  {
    BytesAppend(a, b);
    BytesAppend(a + b, c);
  }

  lemma MaskWhereParts(t: seq<int>, i: nat, j: nat)
    requires i <= j <= |t|
    ensures MaskWhere(t, Within(i, j)) == t[..i] + MaskWhere(t[i..j], Everywhere) + t[j..]
  {
    var u, v := MaskWhere(t, Within(i, j)), t[..i] + MaskWhere(t[i..j], Everywhere) + t[j..];
    forall k: nat | k < |t|
      ensures u[k] == v[k]
    {
      if i <= k < j {
        assert v[k] == MaskWhere(t[i..j], Everywhere)[k - i] == MaskRune(t[i..j][k - i]);
      }
    }
  }

  lemma NonEmptyBytes(t: seq<int>, i: nat, j: nat)
    requires ValidText(t) && i < j <= |t|
    ensures Offset(t, i) < Offset(t, j)
  {
    BytesSplit(t, i, j);
    assert t[i..j][0] == t[i];
  }

  // ----- several ranges, in any order

  function MaskRanges(data: seq<byte>, ranges: seq<(int, int)>): seq<byte> {
    if ranges == [] then data
    else
      var last := ranges[|ranges| - 1];
      MaskedRange(MaskRanges(data, ranges[..|ranges| - 1]), last.0, last.1)
  }

  /** Code-point ranges of a text, as byte ranges. */
  predicate IsSpan(t: seq<int>, s: (nat, nat)) { s.0 <= s.1 <= |t| }

  ghost predicate AreSpans(t: seq<int>, spans: seq<(nat, nat)>) { forall n :: 0 <= n < |spans| ==> IsSpan(t, spans[n]) }

  function ByteRanges(t: seq<int>, spans: seq<(nat, nat)>): seq<(int, int)>
    requires ValidText(t) && AreSpans(t, spans)
  {
    seq(|spans|, n requires 0 <= n < |spans| => (Offset(t, spans[n].0), Offset(t, spans[n].1)))
  }

  function Covered(spans: seq<(nat, nat)>): nat -> bool {
    (k: nat) => exists n :: 0 <= n < |spans| && spans[n].0 <= k < spans[n].1
  }

  /** Masking ranges one after another masks what they cover together, overlaps included. */
  lemma {:induction false} RangesMaskTheirUnion(t: seq<int>, spans: seq<(nat, nat)>)
    requires ValidText(t) && AreSpans(t, spans)
    ensures ValidText(MaskWhere(t, Covered(spans)))
    ensures MaskRanges(Bytes(t), ByteRanges(t, spans)) == Bytes(MaskWhere(t, Covered(spans)))
  {
    MaskWhereValid(t, Covered(spans));
    if spans == [] {
      assert MaskWhere(t, Covered(spans)) == t;
    } else {
      var init, last := spans[..|spans| - 1], spans[|spans| - 1];
      assert IsSpan(t, last) && AreSpans(t, init);
      RangesMaskTheirUnion(t, init);
      MaskOneMore(t, Covered(init), last.0, last.1);
      LastRange(t, spans);
      MaskUnion(t, spans);
    }
  }

  lemma MaskOneMore(t: seq<int>, p: nat -> bool, i: nat, j: nat)
    requires ValidText(t) && i <= j <= |t|
    ensures ValidText(MaskWhere(t, p)) && ValidText(MaskWhere(MaskWhere(t, p), Within(i, j)))
    ensures MaskedRange(Bytes(MaskWhere(t, p)), Offset(t, i), Offset(t, j)) == Bytes(MaskWhere(MaskWhere(t, p), Within(i, j)))
  {
    MaskWhereValid(t, p);
    MaskKeepsPositions(t, p);
    MaskedRangeOnBoundaries(MaskWhere(t, p), i, j);
  }

  lemma LastRange(t: seq<int>, spans: seq<(nat, nat)>)
    requires ValidText(t) && AreSpans(t, spans) && spans != [] && AreSpans(t, spans[..|spans| - 1])
    ensures var init, last := spans[..|spans| - 1], spans[|spans| - 1];
      MaskRanges(Bytes(t), ByteRanges(t, spans))
      == MaskedRange(MaskRanges(Bytes(t), ByteRanges(t, init)), Offset(t, last.0), Offset(t, last.1))
  {
    assert ByteRanges(t, spans)[..|spans| - 1] == ByteRanges(t, spans[..|spans| - 1]);
  }

  lemma MaskUnion(t: seq<int>, spans: seq<(nat, nat)>)
    requires ValidText(t) && spans != []
    ensures var n := |spans| - 1;
            MaskWhere(MaskWhere(t, Covered(spans[..n])), Within(spans[n].0, spans[n].1)) == MaskWhere(t, Covered(spans))
  {
    var n := |spans| - 1;
    forall k: nat
      ensures Covered(spans)(k) <==> Covered(spans[..n])(k) || spans[n].0 <= k < spans[n].1
    {
      assert Covered(spans[..n])(k) ==> exists m :: 0 <= m < n && spans[..n][m].0 <= k < spans[..n][m].1 && spans[m] == spans[..n][m];
      assert forall m :: 0 <= m < n ==> spans[..n][m] == spans[m];
    }
    forall k | 0 <= k < |t|
      ensures MaskRune(MaskRune(t[k])) == MaskRune(t[k])
    {
      MaskRuneKeepsWidth(t[k]);
    }
  }

  lemma SameCover(spans: seq<(nat, nat)>, again: seq<(nat, nat)>)
    requires forall s <- spans :: s in again
    ensures forall k :: Covered(spans)(k) ==> Covered(again)(k)
  {
    forall k: nat | Covered(spans)(k)
      ensures Covered(again)(k)
    {
      var n :| 0 <= n < |spans| && spans[n].0 <= k < spans[n].1;
      assert spans[n] in again;
    }
  }

  /** The order and repetition of the ranges do not matter. */
  lemma MaskRangesAnyOrder(t: seq<int>, spans: seq<(nat, nat)>, again: seq<(nat, nat)>)
    requires ValidText(t) && AreSpans(t, spans) && AreSpans(t, again) && forall s :: s in again <==> s in spans
    ensures MaskRanges(Bytes(t), ByteRanges(t, again)) == MaskRanges(Bytes(t), ByteRanges(t, spans))
  {
    RangesMaskTheirUnion(t, spans);
    RangesMaskTheirUnion(t, again);
    SameCover(spans, again);
    SameCover(again, spans);
    assert MaskWhere(t, Covered(again)) == MaskWhere(t, Covered(spans));
  }

  lemma MaskWhereTwice(t: seq<int>, mask: nat -> bool)
    requires ValidText(t)
    ensures MaskWhere(MaskWhere(t, mask), mask) == MaskWhere(t, mask)
  {
    forall k | 0 <= k < |t|
      ensures MaskRune(MaskRune(t[k])) == MaskRune(t[k])
    {
      MaskRuneKeepsWidth(t[k]);
    }
  }

  /** Masking the same ranges again changes nothing. */
  lemma MaskRangesTwice(t: seq<int>, spans: seq<(nat, nat)>)
    requires ValidText(t) && AreSpans(t, spans)
    ensures var once := MaskRanges(Bytes(t), ByteRanges(t, spans)); MaskRanges(once, ByteRanges(t, spans)) == once
  {
    var u := MaskWhere(t, Covered(spans));
    RangesMaskTheirUnion(t, spans);
    MaskKeepsPositions(t, Covered(spans));
    MaskWhereTwice(t, Covered(spans));
    assert ByteRanges(u, spans) == ByteRanges(t, spans);
    RangesMaskTheirUnion(u, spans);
  }

  /** Text outside the ranges is unchanged, and no position moves. */
  lemma MaskRangesKeepPositions(t: seq<int>, spans: seq<(nat, nat)>)
    requires ValidText(t) && AreSpans(t, spans)
    ensures exists u :: && SamePositions(t, u) && MaskRanges(Bytes(t), ByteRanges(t, spans)) == Bytes(u)
                        && forall k: nat :: k < |t| && !Covered(spans)(k) ==> u[k] == t[k]
  {
    RangesMaskTheirUnion(t, spans);
    MaskKeepsPositions(t, Covered(spans));
  }

  // ----- Redact

  /** A pattern: the byte ranges it matches in a text. */
  type Matcher = seq<byte> -> seq<(int, int)>

  /** On valid text the matches lie on code-point boundaries. */
  ghost predicate OnBoundaries(m: Matcher) {
    forall t: seq<int> {:trigger Bytes(t)} :: ValidText(t) ==>
      exists spans :: AreSpans(t, spans) && m(Bytes(t)) == ByteRanges(t, spans)
  }

  /** Matches are found from left to right and do not overlap. */
  predicate Ordered(ranges: seq<(int, int)>, from: int, length: int) {
    if ranges == [] then from <= length
    else from <= ranges[0].0 <= ranges[0].1 && Ordered(ranges[1..], ranges[0].1, length)
  }

  lemma {:induction false} OrderedEnds(ranges: seq<(int, int)>, from: int, length: int)
    requires Ordered(ranges, from, length)
    ensures from <= length && (ranges != [] ==> ranges[0].1 <= length)
  {
    if ranges != [] {
      OrderedEnds(ranges[1..], ranges[0].1, length);
    }
  }

  /** `ReplaceAllStringFunc(text, maskText)` from byte `from` on. */
  function ReplaceAll(text: seq<byte>, ranges: seq<(int, int)>, from: nat): seq<byte>
    requires from <= |text|
    decreases |ranges|
  {
    if ranges == [] || !(from <= ranges[0].0 <= ranges[0].1 <= |text|) then text[from..]
    else
      var (start, end) := ranges[0];
      text[from..start] + MaskedText(text[start..end]) + ReplaceAll(text, ranges[1..], end)
  }

  ghost predicate LeftToRight(m: Matcher) {
    forall b: seq<byte> :: Ordered(m(b), 0, |b|)
  }

  function ApplyPatterns(text: seq<byte>, patterns: seq<Matcher>): seq<byte> {
    if patterns == [] then text
    else
      var before := ApplyPatterns(text, patterns[..|patterns| - 1]);
      ReplaceAll(before, patterns[|patterns| - 1](before), 0)
  }

  /** The quoted values of sensitive names and the passwords of connection strings, both matched in
      the original text, then each token pattern in turn on what is left. */
  function Redacted(text: seq<byte>, assignments: Matcher, passwords: Matcher, patterns: seq<Matcher>): seq<byte> {
    ApplyPatterns(MaskRanges(MaskRanges(text, assignments(text)), passwords(text)), patterns)
  }

  method MaskEach(data: array<byte>, ranges: seq<(int, int)>)
    modifies data
    ensures data[..] == MaskRanges(old(data[..]), ranges)
  {
    for i := 0 to |ranges|
      invariant data[..] == MaskRanges(old(data[..]), ranges[..i])
    {
      assert ranges[..i + 1][..i] == ranges[..i];
      MaskRange(data, ranges[i].0, ranges[i].1);
    }
    assert ranges[..|ranges|] == ranges;
  }

  method ReplaceAllStringFunc(text: seq<byte>, ranges: seq<(int, int)>) returns (result: seq<byte>)
    requires Ordered(ranges, 0, |text|)
    ensures result == ReplaceAll(text, ranges, 0)
  {
    result := [];
    var from: nat := 0;
    ghost var whole := ReplaceAll(text, ranges, 0);
    for i := 0 to |ranges|
      invariant Ordered(ranges[i..], from, |text|) && from <= |text|
      invariant whole == result + ReplaceAll(text, ranges[i..], from)
    {
      OrderedEnds(ranges[i..], from, |text|);
      assert ranges[i..][1..] == ranges[i + 1..];
      var masked := MaskText(text[ranges[i].0..ranges[i].1]);
      result := result + (text[from..ranges[i].0] + masked);
      from := ranges[i].1;
    }
    result := result + text[from..];
  }

  method Redact(text: seq<byte>, assignments: Matcher, passwords: Matcher, patterns: seq<Matcher>) returns (result: seq<byte>)
    requires forall i :: 0 <= i < |patterns| ==> LeftToRight(patterns[i])
    ensures result == Redacted(text, assignments, passwords, patterns)
  {
    var masked := new byte[|text|](i requires 0 <= i < |text| => text[i]);
    assert masked[..] == text;
    MaskEach(masked, assignments(text));
    MaskEach(masked, passwords(text));
    result := masked[..];
    ghost var start := result;
    for i := 0 to |patterns|
      invariant result == ApplyPatterns(start, patterns[..i])
    {
      assert patterns[..i + 1][..i] == patterns[..i];
      result := ReplaceAllStringFunc(result, patterns[i](result));
    }
    assert patterns[..|patterns|] == patterns;
  }

  function Either(m1: nat -> bool, m2: nat -> bool): nat -> bool { (k: nat) => m1(k) || m2(k) }

  lemma MaskWhereCompose(t: seq<int>, m1: nat -> bool, m2: nat -> bool)
    requires ValidText(t)
    ensures MaskWhere(MaskWhere(t, m1), m2) == MaskWhere(t, Either(m1, m2))
  {
    forall k | 0 <= k < |t|
      ensures MaskRune(MaskRune(t[k])) == MaskRune(t[k])
    {
      MaskRuneKeepsWidth(t[k]);
    }
  }

  lemma {:induction false} ReplaceAllMasks(t: seq<int>, spans: seq<(nat, nat)>, i: nat)
    requires ValidText(t) && i <= |t| && AreSpans(t, spans)
    requires Ordered(ByteRanges(t, spans), Offset(t, i), |Bytes(t)|)
    ensures ValidText(MaskWhere(t, Covered(spans))) && Offset(t, i) <= |Bytes(t)|
    ensures ReplaceAll(Bytes(t), ByteRanges(t, spans), Offset(t, i)) == Bytes(MaskWhere(t, Covered(spans))[i..])
    decreases |spans|
  {
    MaskWhereValid(t, Covered(spans));
    BytesSplit(t, i, i);
    if spans == [] {
      assert MaskWhere(t, Covered(spans))[i..] == t[i..];
    } else {
      assert ByteRanges(t, spans)[1..] == ByteRanges(t, spans[1..]);
      assert AreSpans(t, spans[1..]) && IsSpan(t, spans[0]);
      ReplaceAllMasks(t, spans[1..], spans[0].1);
      LaterSpans(t, spans, i);
      LaterSpans(t, spans[1..], spans[0].1);
      ReplaceAllStep(t, spans, i);
    }
  }

  lemma ReplaceAllStep(t: seq<int>, spans: seq<(nat, nat)>, i: nat)
    requires ValidText(t) && AreSpans(t, spans) && spans != [] && AreSpans(t, spans[1..])
    requires i <= spans[0].0 <= spans[0].1 <= |t|
    requires forall n :: 0 <= n < |spans[1..]| ==> spans[0].1 <= spans[1..][n].0
    requires ByteRanges(t, spans)[1..] == ByteRanges(t, spans[1..])
    requires ValidText(MaskWhere(t, Covered(spans[1..]))) && Offset(t, spans[0].1) <= |Bytes(t)|
    requires ReplaceAll(Bytes(t), ByteRanges(t, spans[1..]), Offset(t, spans[0].1))
          == Bytes(MaskWhere(t, Covered(spans[1..]))[spans[0].1..])
    ensures ValidText(MaskWhere(t, Covered(spans))) && Offset(t, i) <= |Bytes(t)|
    ensures ReplaceAll(Bytes(t), ByteRanges(t, spans), Offset(t, i)) == Bytes(MaskWhere(t, Covered(spans))[i..])
  {
    var a, b := spans[0].0, spans[0].1;
    var rest := MaskWhere(t, Covered(spans[1..]))[b..];
    MaskWhereValid(t, Covered(spans));
    OrderedCover(t, spans, i);
    ReplaceParts(t, i, a, b, rest);
    assert ByteRanges(t, spans)[0] == (Offset(t, a), Offset(t, b));
  }

  lemma ReplaceParts(t: seq<int>, i: nat, a: nat, b: nat, rest: seq<int>)
    requires ValidText(t) && ValidText(rest) && i <= a <= b <= |t|
    ensures Offset(t, i) <= Offset(t, a) <= Offset(t, b) <= |Bytes(t)|
    ensures ValidText(t[i..a] + MaskWhere(t[a..b], Everywhere) + rest)
    ensures Bytes(t)[Offset(t, i)..Offset(t, a)] + MaskedText(Bytes(t)[Offset(t, a)..Offset(t, b)]) + Bytes(rest)
         == Bytes(t[i..a] + MaskWhere(t[a..b], Everywhere) + rest)
  {
    BytesSplit(t, i, a);
    BytesSplit(t, a, b);
    MaskWholeText(t[a..b]);
    BytesOfParts(t[i..a], MaskWhere(t[a..b], Everywhere), rest);
  }

  lemma OrderedOffsets(t: seq<int>, i: nat, a: nat)
    requires ValidText(t) && i <= |t| && a <= |t| && Offset(t, i) <= Offset(t, a)
    ensures i <= a
  {
    if a < i {
      NonEmptyBytes(t, a, i);
    }
  }

  lemma {:induction false} LaterSpans(t: seq<int>, spans: seq<(nat, nat)>, i: nat)
    requires ValidText(t) && i <= |t| && AreSpans(t, spans)
    requires Ordered(ByteRanges(t, spans), Offset(t, i), |Bytes(t)|)
    ensures forall n :: 0 <= n < |spans| ==> i <= spans[n].0
    decreases |spans|
  {
    if spans != [] {
      assert IsSpan(t, spans[0]) && AreSpans(t, spans[1..]);
      assert ByteRanges(t, spans)[1..] == ByteRanges(t, spans[1..]);
      OrderedOffsets(t, i, spans[0].0);
      LaterSpans(t, spans[1..], spans[0].1);
      forall n | 0 <= n < |spans|
        ensures i <= spans[n].0
      {
        if n > 0 {
          assert spans[n] == spans[1..][n - 1];
        }
      }
    }
  }

  lemma CoverSplit(spans: seq<(nat, nat)>, k: nat)
    requires spans != []
    ensures Covered(spans)(k) <==> spans[0].0 <= k < spans[0].1 || Covered(spans[1..])(k)
  {
    if Covered(spans[1..])(k) {
      var n :| 0 <= n < |spans[1..]| && spans[1..][n].0 <= k < spans[1..][n].1;
      assert spans[n + 1] == spans[1..][n];
    }
    if Covered(spans)(k) && !(spans[0].0 <= k < spans[0].1) {
      var n :| 0 <= n < |spans| && spans[n].0 <= k < spans[n].1;
      assert spans[1..][n - 1] == spans[n];
    }
  }

  lemma OrderedCover(t: seq<int>, spans: seq<(nat, nat)>, i: nat)
    requires spans != [] && i <= spans[0].0 <= spans[0].1 <= |t|
    requires forall n :: 0 <= n < |spans[1..]| ==> spans[0].1 <= spans[1..][n].0
    ensures var a, b := spans[0].0, spans[0].1;
            MaskWhere(t, Covered(spans))[i..] == t[i..a] + MaskWhere(t[a..b], Everywhere) + MaskWhere(t, Covered(spans[1..]))[b..]
  {
    var a, b, rest := spans[0].0, spans[0].1, spans[1..];
    var u, v := MaskWhere(t, Covered(spans))[i..], t[i..a] + MaskWhere(t[a..b], Everywhere) + MaskWhere(t, Covered(rest))[b..];
    forall k: nat | k < |u|
      ensures u[k] == v[k]
    {
      CoverSplit(spans, i + k);
      if i + k < b {
        assert !Covered(rest)(i + k);
      }
      if a <= i + k < b {
        assert v[k] == MaskWhere(t[a..b], Everywhere)[i + k - a];
      }
    }
  }

  /** The code points matched by some pass. */
  function Union(passes: seq<seq<(nat, nat)>>): nat -> bool {
    (k: nat) => exists n :: 0 <= n < |passes| && Covered(passes[n])(k)
  }

  /** Pass `n` is what pattern `n` matches in the text the passes before it have left. */
  ghost predicate ArePasses(t: seq<int>, patterns: seq<Matcher>, passes: seq<seq<(nat, nat)>>) {
    |passes| == |patterns| && forall n :: 0 <= n < |patterns| ==> IsPass(t, patterns[n], passes[..n], passes[n])
  }

  ghost predicate IsPass(t: seq<int>, pattern: Matcher, before: seq<seq<(nat, nat)>>, spans: seq<(nat, nat)>) {
    var u := MaskWhere(t, Union(before));
    ValidText(u) && AreSpans(u, spans) && pattern(Bytes(u)) == ByteRanges(u, spans)
  }

  lemma UnionStep(passes: seq<seq<(nat, nat)>>, spans: seq<(nat, nat)>, k: nat)
    ensures Union(passes + [spans])(k) <==> Union(passes)(k) || Covered(spans)(k)
  {
    var longer := passes + [spans];
    if Union(passes)(k) {
      var n :| 0 <= n < |passes| && Covered(passes[n])(k);
      assert longer[n] == passes[n];
    }
    if Covered(spans)(k) {
      assert longer[|passes|] == spans;
    }
  }

  lemma MaskUnionStep(t: seq<int>, before: seq<seq<(nat, nat)>>, spans: seq<(nat, nat)>)
    requires ValidText(t)
    ensures MaskWhere(MaskWhere(t, Union(before)), Covered(spans)) == MaskWhere(t, Union(before + [spans]))
  {
    MaskWhereCompose(t, Union(before), Covered(spans));
    forall k: nat
      ensures Union(before + [spans])(k) <==> Either(Union(before), Covered(spans))(k)
    {
      UnionStep(before, spans, k);
    }
  }

  /** One pass of a pattern masks exactly what it matches. */
  lemma OnePass(t: seq<int>, pattern: Matcher, before: seq<seq<(nat, nat)>>) returns (spans: seq<(nat, nat)>)
    requires ValidText(t) && OnBoundaries(pattern) && LeftToRight(pattern)
    ensures IsPass(t, pattern, before, spans) && ValidText(MaskWhere(t, Union(before + [spans])))
    ensures var b := Bytes(MaskWhere(t, Union(before)));
      ReplaceAll(b, pattern(b), 0) == Bytes(MaskWhere(t, Union(before + [spans])))
  {
    var u := MaskWhere(t, Union(before));
    MaskWhereValid(t, Union(before));
    spans :| AreSpans(u, spans) && pattern(Bytes(u)) == ByteRanges(u, spans);
    assert Offset(u, 0) == 0 by {
      assert u[..0] == [];
    }
    ReplaceAllMasks(u, spans, 0);
    MaskUnionStep(t, before, spans);
    assert MaskWhere(u, Covered(spans))[0..] == MaskWhere(u, Covered(spans));
  }

  /** Applying the patterns one after another masks exactly what each of them matches in its turn. */
  lemma {:induction false} PatternsMask(t: seq<int>, patterns: seq<Matcher>) returns (passes: seq<seq<(nat, nat)>>)
    requires ValidText(t) && forall i :: 0 <= i < |patterns| ==> OnBoundaries(patterns[i]) && LeftToRight(patterns[i])
    ensures ArePasses(t, patterns, passes)
    ensures ValidText(MaskWhere(t, Union(passes))) && ApplyPatterns(Bytes(t), patterns) == Bytes(MaskWhere(t, Union(passes)))
  {
    if patterns == [] {
      passes := [];
      assert MaskWhere(t, Union(passes)) == t;
    } else {
      var n := |patterns| - 1;
      assert OnBoundaries(patterns[n]) && LeftToRight(patterns[n]);
      var before := PatternsMask(t, patterns[..n]);
      var spans := OnePass(t, patterns[n], before);
      passes := before + [spans];
      MorePasses(t, patterns, before, spans);
    }
  }

  lemma MorePasses(t: seq<int>, patterns: seq<Matcher>, before: seq<seq<(nat, nat)>>, spans: seq<(nat, nat)>)
    requires patterns != [] && ArePasses(t, patterns[..|patterns| - 1], before)
    requires IsPass(t, patterns[|patterns| - 1], before, spans)
    ensures ArePasses(t, patterns, before + [spans])
  {
    var passes := before + [spans];
    forall n | 0 <= n < |patterns|
      ensures IsPass(t, patterns[n], passes[..n], passes[n])
    {
      if n < |before| {
        assert passes[..n] == before[..n] && patterns[..|patterns| - 1][n] == patterns[n];
        assert IsPass(t, patterns[..|patterns| - 1][n], before[..n], before[n]);
      } else {
        assert passes[..n] == before;
      }
    }
  }

  lemma ByteRangesAppend(t: seq<int>, s1: seq<(nat, nat)>, s2: seq<(nat, nat)>)
    requires ValidText(t) && AreSpans(t, s1) && AreSpans(t, s2)
    ensures AreSpans(t, s1 + s2) && ByteRanges(t, s1 + s2) == ByteRanges(t, s1) + ByteRanges(t, s2)
  {
    var a, b := ByteRanges(t, s1 + s2), ByteRanges(t, s1) + ByteRanges(t, s2);
    forall n | 0 <= n < |a|
      ensures a[n] == b[n]
    {
      if n >= |s1| {
        assert (s1 + s2)[n] == s2[n - |s1|];
      }
    }
  }

  lemma RangesMask(t: seq<int>, assignments: Matcher, passwords: Matcher) returns (found: seq<(nat, nat)>)
    requires ValidText(t) && OnBoundaries(assignments) && OnBoundaries(passwords)
    ensures AreSpans(t, found) && ByteRanges(t, found) == assignments(Bytes(t)) + passwords(Bytes(t))
    ensures ValidText(MaskWhere(t, Covered(found)))
    ensures MaskRanges(MaskRanges(Bytes(t), assignments(Bytes(t))), passwords(Bytes(t))) == Bytes(MaskWhere(t, Covered(found)))
  {
    var s1 :| AreSpans(t, s1) && assignments(Bytes(t)) == ByteRanges(t, s1);
    var s2 :| AreSpans(t, s2) && passwords(Bytes(t)) == ByteRanges(t, s2);
    found := s1 + s2;
    ByteRangesAppend(t, s1, s2);
    RangesMaskTheirUnion(t, found);
    MaskRangesAppend(Bytes(t), ByteRanges(t, s1), ByteRanges(t, s2));
  }

  /** The main result: redaction moves no position and masks exactly the code points that the
      assignment and password patterns match in the original text, or a token pattern in its turn. */
  lemma RedactKeepsPositions(t: seq<int>, assignments: Matcher, passwords: Matcher, patterns: seq<Matcher>)
    returns (mask: nat -> bool, found: seq<(nat, nat)>, passes: seq<seq<(nat, nat)>>)
    requires ValidText(t) && OnBoundaries(assignments) && OnBoundaries(passwords)
    requires forall i :: 0 <= i < |patterns| ==> OnBoundaries(patterns[i]) && LeftToRight(patterns[i])
    ensures SamePositions(t, MaskWhere(t, mask))
    ensures Redacted(Bytes(t), assignments, passwords, patterns) == Bytes(MaskWhere(t, mask))
    ensures AreSpans(t, found) && ByteRanges(t, found) == assignments(Bytes(t)) + passwords(Bytes(t))
    ensures ArePasses(MaskWhere(t, Covered(found)), patterns, passes)
    ensures forall k :: mask(k) <==> Covered(found)(k) || Union(passes)(k)
  {
    found := RangesMask(t, assignments, passwords);
    passes := PatternsMask(MaskWhere(t, Covered(found)), patterns);
    MaskWhereCompose(t, Covered(found), Union(passes));
    mask := Either(Covered(found), Union(passes));
    MaskKeepsPositions(t, mask);
  }

  lemma {:induction false} MaskRangesAppend(data: seq<byte>, a: seq<(int, int)>, b: seq<(int, int)>)
    ensures MaskRanges(data, a + b) == MaskRanges(MaskRanges(data, a), b)
  {
    if b == [] {
      assert a + b == a;
    } else {
      assert (a + b)[..|a + b| - 1] == a + b[..|b| - 1];
      MaskRangesAppend(data, a, b[..|b| - 1]);
    }
  }
}
