/** The invisible-character filter of native/srx_lsplant_bridge.cpp, which compares file names
    with their default-ignorable code points left out. */
module Utf8Filter {
  import opened Text

  type Bytes = seq<bv8>

  predicate IsDefaultIgnorable(ch: bv32) {
    || ch == 0x00AD || ch == 0x034F || ch == 0x061C
    || 0x115F <= ch <= 0x1160 || 0x17B4 <= ch <= 0x17B5 || 0x180B <= ch <= 0x180E
    || 0x200B <= ch <= 0x200F || 0x202A <= ch <= 0x202E || 0x2060 <= ch <= 0x206F
    || ch == 0x3164 || 0xFE00 <= ch <= 0xFE0F || ch == 0xFEFF || ch == 0xFFA0
    || 0xFFF0 <= ch <= 0xFFF8 || 0x1BCA0 <= ch <= 0x1BCA3 || 0x1D173 <= ch <= 0x1D17A
    || 0xE0000 <= ch <= 0xE0FFF
  }

  predicate Continuation(b: bv8) {
    b & 0xC0 == 0x80
  }

  predicate Lead2(b: bv8) {
    b & 0xE0 == 0xC0
  }

  predicate Lead3(b: bv8) {
    b & 0xF0 == 0xE0
  }

  predicate Lead4(b: bv8) {
    b & 0xF8 == 0xF0
  }

  function Join2(b0: bv8, b1: bv8): bv32 {
    ((b0 & 0x1F) as bv32 << 6) | (b1 & 0x3F) as bv32
  }

  function Join3(b0: bv8, b1: bv8, b2: bv8): bv32 {
    ((b0 & 0x0F) as bv32 << 12) | ((b1 & 0x3F) as bv32 << 6) | (b2 & 0x3F) as bv32
  }

  function Join4(b0: bv8, b1: bv8, b2: bv8, b3: bv8): bv32 {
    ((b0 & 0x07) as bv32 << 18) | ((b1 & 0x3F) as bv32 << 12) | ((b2 & 0x3F) as bv32 << 6) | (b3 & 0x3F) as bv32
  }

  /** How many bytes the code point at the front of `s` takes; a byte that starts no complete
      sequence stands for itself. */
  function Width(s: Bytes): (n: nat)
    requires |s| > 0
    ensures 1 <= n <= |s|
  {
    if s[0] < 0x80 then 1
    else if Lead2(s[0]) && 1 < |s| then
      if Continuation(s[1]) then 2 else 1
    else if Lead3(s[0]) && 2 < |s| then
      if Continuation(s[1]) && Continuation(s[2]) then 3 else 1
    else if Lead4(s[0]) && 3 < |s| then
      if Continuation(s[1]) && Continuation(s[2]) && Continuation(s[3]) then 4 else 1
    else 1
  }

  function CodePoint(s: Bytes): bv32
    requires |s| > 0
  {
    var n := Width(s);
    if n == 2 then Join2(s[0], s[1])
    else if n == 3 then Join3(s[0], s[1], s[2])
    else if n == 4 then Join4(s[0], s[1], s[2], s[3])
    else s[0] as bv32
  }

  /** A Unicode scalar value: section 3 of RFC 3629 excludes the surrogates. */
  predicate Scalar(ch: bv32) {
    ch <= 0x10FFFF && !(0xD800 <= ch <= 0xDFFF)
  }

  function Tail(bits: bv32): bv8 {
    (0x80 | (bits & 0x3F)) as bv8
  }

  /** The encoding of section 3 of RFC 3629. */
  function Encode(ch: bv32): Bytes
    requires Scalar(ch)
  {
    if ch < 0x80 then [ch as bv8]
    else if ch < 0x800 then [(0xC0 | (ch >> 6)) as bv8, Tail(ch)]
    else if ch < 0x10000 then [(0xE0 | (ch >> 12)) as bv8, Tail(ch >> 6), Tail(ch)]
    else [(0xF0 | (ch >> 18)) as bv8, Tail(ch >> 12), Tail(ch >> 6), Tail(ch)]
  }

  lemma TwoBytes(ch: bv32)
    requires 0x80 <= ch < 0x800
    ensures var b0, b1 := (0xC0 | (ch >> 6)) as bv8, Tail(ch);
            b0 >= 0x80 && Lead2(b0) && Continuation(b1) && Join2(b0, b1) == ch
  {
  }

  lemma ThreeBytes(ch: bv32)
    requires 0x800 <= ch < 0x10000
    ensures var b0, b1, b2 := (0xE0 | (ch >> 12)) as bv8, Tail(ch >> 6), Tail(ch);
            && b0 >= 0x80 && !Lead2(b0) && Lead3(b0) && Continuation(b1) && Continuation(b2)
            && Join3(b0, b1, b2) == ch
  {
  }

  lemma FourBytes(ch: bv32)
    requires 0x10000 <= ch <= 0x10FFFF
    ensures var b0, b1, b2, b3 := (0xF0 | (ch >> 18)) as bv8, Tail(ch >> 12), Tail(ch >> 6), Tail(ch);
            && b0 >= 0x80 && !Lead2(b0) && !Lead3(b0) && Lead4(b0)
            && Continuation(b1) && Continuation(b2) && Continuation(b3)
            && Join4(b0, b1, b2, b3) == ch
  {
  }

  lemma Decodes2(s: Bytes, b0: bv8, b1: bv8)
    requires |s| >= 2 && s[0] == b0 && s[1] == b1 && b0 >= 0x80 && Lead2(b0) && Continuation(b1)
    ensures Width(s) == 2 && CodePoint(s) == Join2(b0, b1)
  {
  }

  lemma Decodes3(s: Bytes, b0: bv8, b1: bv8, b2: bv8)
    requires |s| >= 3 && s[0] == b0 && s[1] == b1 && s[2] == b2
    requires b0 >= 0x80 && !Lead2(b0) && Lead3(b0) && Continuation(b1) && Continuation(b2)
    ensures Width(s) == 3 && CodePoint(s) == Join3(b0, b1, b2)
  {
  }

  lemma Decodes4(s: Bytes, b0: bv8, b1: bv8, b2: bv8, b3: bv8)
    requires |s| >= 4 && s[0] == b0 && s[1] == b1 && s[2] == b2 && s[3] == b3
    requires b0 >= 0x80 && !Lead2(b0) && !Lead3(b0) && Lead4(b0)
    requires Continuation(b1) && Continuation(b2) && Continuation(b3)
    ensures Width(s) == 4 && CodePoint(s) == Join4(b0, b1, b2, b3)
  {
  }

  lemma OneByte(ch: bv32, s: Bytes)
    requires ch < 0x80 && |s| > 0 && s[0] == ch as bv8
    ensures Width(s) == 1 && CodePoint(s) == ch
  {
  }

  /** The decoder reads back any scalar value, whatever follows it. */
  lemma DecodesWhatWasEncoded(ch: bv32, rest: Bytes)
    requires Scalar(ch)
    ensures Width(Encode(ch) + rest) == |Encode(ch)| && CodePoint(Encode(ch) + rest) == ch
  {
    var e := Encode(ch);
    var s := e + rest;
    assert forall i :: 0 <= i < |e| ==> s[i] == e[i];
    if ch < 0x80 {
      OneByte(ch, s);
    } else if ch < 0x800 {
      TwoBytes(ch);
      Decodes2(s, e[0], e[1]);
    } else if ch < 0x10000 {
      ThreeBytes(ch);
      Decodes3(s, e[0], e[1], e[2]);
    } else {
      FourBytes(ch);
      Decodes4(s, e[0], e[1], e[2], e[3]);
    }
  }

  /** A lead byte of `n` bytes with all its continuation bytes behind it. */
  ghost predicate Sequence(s: Bytes, n: nat) {
    && 2 <= n <= 4 && n <= |s|
    && (if n == 2 then 0xC0 <= s[0] <= 0xDF else if n == 3 then 0xE0 <= s[0] <= 0xEF else 0xF0 <= s[0] <= 0xF7)
    && forall i :: 1 <= i < n ==> 0x80 <= s[i] <= 0xBF
  }

  lemma ByteKinds(b: bv8)
    ensures Continuation(b) <==> 0x80 <= b <= 0xBF
    ensures Lead2(b) <==> 0xC0 <= b <= 0xDF
    ensures Lead3(b) <==> 0xE0 <= b <= 0xEF
    ensures Lead4(b) <==> 0xF0 <= b <= 0xF7
  {
  }

  /** On any bytes, well-formed or not: a complete sequence is taken whole, and any other byte stands for
      itself. */
  lemma WidthIff(s: Bytes)
    requires |s| > 0
    ensures forall n :: 2 <= n <= 4 ==> (Width(s) == n <==> Sequence(s, n))
    ensures Width(s) == 1 <==> !Sequence(s, 2) && !Sequence(s, 3) && !Sequence(s, 4)
    ensures Width(s) == 1 ==> CodePoint(s) == s[0] as bv32
  {
    forall i | 0 <= i < |s| && i < 4
      ensures Continuation(s[i]) <==> 0x80 <= s[i] <= 0xBF
    {
      ByteKinds(s[i]);
    }
    ByteKinds(s[0]);
  }

  // ----- which code points are ignorable -----

  /** First and last code point of the ignorable blocks, in order. */
  function Block(k: nat): (bv32, bv32)
    requires k < 17
  {
    match k
    case 0 => (0xAD, 0xAD)
    case 1 => (0x34F, 0x34F)
    case 2 => (0x61C, 0x61C)
    case 3 => (0x115F, 0x1160)
    case 4 => (0x17B4, 0x17B5)
    case 5 => (0x180B, 0x180E)
    case 6 => (0x200B, 0x200F)
    case 7 => (0x202A, 0x202E)
    case 8 => (0x2060, 0x206F)
    case 9 => (0x3164, 0x3164)
    case 10 => (0xFE00, 0xFE0F)
    case 11 => (0xFEFF, 0xFEFF)
    case 12 => (0xFFA0, 0xFFA0)
    case 13 => (0xFFF0, 0xFFF8)
    case 14 => (0x1BCA0, 0x1BCA3)
    case 15 => (0x1D173, 0x1D17A)
    case _ => (0xE0000, 0xE0FFF)
  }

  predicate InBlock(ch: bv32, k: nat) {
    k < 17 && Block(k).0 <= ch <= Block(k).1
  }

  lemma BlockIsIgnorable(ch: bv32, k: nat)
    requires InBlock(ch, k)
    ensures IsDefaultIgnorable(ch)
  {
    if k < 6 {
      EarlyBlock(ch, k);
    } else if k < 12 {
      MiddleBlock(ch, k);
    } else {
      LateBlock(ch, k);
    }
  }

  lemma EarlyBlock(ch: bv32, k: nat)
    requires k < 6 && InBlock(ch, k)
    ensures IsDefaultIgnorable(ch)
  {
    assert k == 0 || k == 1 || k == 2 || k == 3 || k == 4 || k == 5;
  }

  lemma MiddleBlock(ch: bv32, k: nat)
    requires 6 <= k < 12 && InBlock(ch, k)
    ensures IsDefaultIgnorable(ch)
  {
    assert k == 6 || k == 7 || k == 8 || k == 9 || k == 10 || k == 11;
  }

  lemma LateBlock(ch: bv32, k: nat)
    requires 12 <= k < 17 && InBlock(ch, k)
    ensures IsDefaultIgnorable(ch)
  {
    assert k == 12 || k == 13 || k == 14 || k == 15 || k == 16;
  }

  lemma BlockOf(ch: bv32) returns (k: nat)
    requires IsDefaultIgnorable(ch)
    ensures InBlock(ch, k)
  {
    k := if ch <= 0xAD then 0 else if ch <= 0x34F then 1 else if ch <= 0x61C then 2 else if ch <= 0x1160 then 3
         else if ch <= 0x17B5 then 4 else if ch <= 0x180E then 5 else if ch <= 0x200F then 6 else if ch <= 0x202E then 7
         else if ch <= 0x206F then 8 else if ch <= 0x3164 then 9 else if ch <= 0xFE0F then 10 else if ch <= 0xFEFF then 11
         else if ch <= 0xFFA0 then 12 else if ch <= 0xFFF8 then 13 else if ch <= 0x1BCA3 then 14
         else if ch <= 0x1D17A then 15 else 16;
  }

  lemma IgnorableIff(ch: bv32)
    ensures IsDefaultIgnorable(ch) <==> exists k :: InBlock(ch, k)
  {
    if IsDefaultIgnorable(ch) {
      var k := BlockOf(ch);
    }
    if k: nat :| InBlock(ch, k) {
      BlockIsIgnorable(ch, k);
    }
  }

  // ----- filtering bytes -----

  /** What is kept of `s`, code point by code point. */
  function Strip(s: Bytes): Bytes {
    if |s| == 0 then []
    else (if IsDefaultIgnorable(CodePoint(s)) then [] else s[..Width(s)]) + Strip(s[Width(s)..])
  }

  predicate HasIgnorable(s: Bytes) {
    |s| > 0 && (IsDefaultIgnorable(CodePoint(s)) || HasIgnorable(s[Width(s)..]))
  }

  /** `NextUtf8CodePoint`: false at the end of the text, else the code point and the index after
      it; the index always advances. */
  method NextUtf8CodePoint(text: Bytes, index: nat) returns (ok: bool, next: nat, out: bv32)
    ensures ok <==> index < |text|
    ensures ok ==> index < next <= |text| && next == index + Width(text[index..]) && out == CodePoint(text[index..])
    ensures !ok ==> next == index
  {
    if index >= |text| {
      return false, index, 0;
    }
    var i, n := index, |text|;
    ghost var s := text[i..];
    var b0 := text[i];
    assert s[0] == b0 && |s| == n - i;
    if b0 < 0x80 {
      return true, i + 1, b0 as bv32;
    }
    if Lead2(b0) && i + 1 < n {
      var b1 := text[i + 1];
      assert s[1] == b1;
      if Continuation(b1) {
        return true, i + 2, Join2(b0, b1);
      }
    } else if Lead3(b0) && i + 2 < n {
      var b1, b2 := text[i + 1], text[i + 2];
      assert s[1] == b1 && s[2] == b2;
      if Continuation(b1) && Continuation(b2) {
        return true, i + 3, Join3(b0, b1, b2);
      }
    } else if Lead4(b0) && i + 3 < n {
      var b1, b2, b3 := text[i + 1], text[i + 2], text[i + 3];
      assert s[1] == b1 && s[2] == b2 && s[3] == b3;
      if Continuation(b1) && Continuation(b2) && Continuation(b3) {
        return true, i + 4, Join4(b0, b1, b2, b3);
      }
    }
    return true, i + 1, b0 as bv32;
  }

  lemma StripAt(text: Bytes, i: nat, next: nat, ch: bv32)
    requires i < |text| && next == i + Width(text[i..]) && ch == CodePoint(text[i..])
    ensures Strip(text[i..]) == (if IsDefaultIgnorable(ch) then [] else text[i..next]) + Strip(text[next..])
    ensures HasIgnorable(text[i..]) == (IsDefaultIgnorable(ch) || HasIgnorable(text[next..]))
  {
    assert text[i..][next - i..] == text[next..];
    assert text[i..][..next - i] == text[i..next];
  }

  /** One turn of the removing loop: what was still to strip moves to the output. */
  lemma StripTurn(text: Bytes, out: Bytes, i: nat, next: nat, ch: bv32)
    requires i < |text| && next == i + Width(text[i..]) && ch == CodePoint(text[i..])
    requires Strip(text) == out + Strip(text[i..])
    ensures Strip(text) == (if IsDefaultIgnorable(ch) then out else out + text[i..next]) + Strip(text[next..])
  {
    StripAt(text, i, next, ch);
    var piece := if IsDefaultIgnorable(ch) then [] else text[i..next];
    Assoc(out, piece, Strip(text[next..]));
    assert out + [] == out;
  }

  method HasDefaultIgnorableCodePoint(text: Bytes) returns (r: bool)
    ensures r == HasIgnorable(text)
  {
    var i := 0;
    assert text[0..] == text;
    while i < |text|
      invariant i <= |text|
      invariant HasIgnorable(text) == HasIgnorable(text[i..])
    {
      var ok, next, ch := NextUtf8CodePoint(text, i);
      StripAt(text, i, next, ch);
      if IsDefaultIgnorable(ch) {
        return true;
      }
      i := next;
    }
    return false;
  }

  method RemoveDefaultIgnorableCodePoints(text: Bytes) returns (out: Bytes)
    ensures out == Strip(text)
  {
    out := [];
    var i := 0;
    assert text[0..] == text;
    while i < |text|
      invariant i <= |text|
      invariant Strip(text) == out + Strip(text[i..])
    {
      var ok, next, ch := NextUtf8CodePoint(text, i);
      StripTurn(text, out, i, next, ch);
      if !IsDefaultIgnorable(ch) {
        out := out + text[i..next];
      }
      i := next;
    }
  }

  /** On any bytes at all, removal shortens the text exactly when there is something to remove,
      and leaves it alone otherwise. */
  lemma {:induction false} StripShortens(s: Bytes)
    ensures HasIgnorable(s) <==> |Strip(s)| < |s|
    ensures !HasIgnorable(s) ==> Strip(s) == s
  {
    if |s| > 0 {
      StripShortens(s[Width(s)..]);
      assert s == s[..Width(s)] + s[Width(s)..];
    }
  }

  // ----- well-formed text -----

  ghost predicate Scalars(text: seq<bv32>) {
    forall i :: 0 <= i < |text| ==> Scalar(text[i])
  }

  function EncodeAll(text: seq<bv32>): Bytes
    requires Scalars(text)
  {
    if |text| == 0 then [] else Encode(text[0]) + EncodeAll(text[1..])
  }

  function Visible(text: seq<bv32>): seq<bv32> {
    if |text| == 0 then [] else (if IsDefaultIgnorable(text[0]) then [] else [text[0]]) + Visible(text[1..])
  }

  lemma VisibleHead(ch: bv32, rest: seq<bv32>, text: seq<bv32>)
    requires text == [ch] + rest
    ensures IsDefaultIgnorable(ch) ==> Visible(text) == Visible(rest)
    ensures !IsDefaultIgnorable(ch) ==>
              Visible(text) != [] && Visible(text)[0] == ch && Visible(text)[1..] == Visible(rest)
  {
    assert text[1..] == rest;
  }

  lemma {:induction false} VisibleScalars(text: seq<bv32>)
    requires Scalars(text)
    ensures Scalars(Visible(text))
    ensures forall i :: 0 <= i < |Visible(text)| ==> !IsDefaultIgnorable(Visible(text)[i])
  {
    if |text| > 0 {
      VisibleScalars(text[1..]);
    }
  }

  /** On well-formed text removal is exactly the filter on code points. */
  lemma {:induction false} StripFiltersCodePoints(text: seq<bv32>)
    requires Scalars(text)
    ensures Scalars(Visible(text)) && Strip(EncodeAll(text)) == EncodeAll(Visible(text))
  {
    VisibleScalars(text);
    if |text| > 0 {
      var ch, rest := text[0], text[1..];
      StripFiltersCodePoints(rest);
      DecodesWhatWasEncoded(ch, EncodeAll(rest));
      var s := EncodeAll(text);
      assert s[..|Encode(ch)|] == Encode(ch) && s[|Encode(ch)|..] == EncodeAll(rest);
      VisibleHead(ch, rest, text);
    }
  }

  /** On well-formed text removing twice is removing once, and nothing ignorable is left. */
  lemma StripIdempotent(text: seq<bv32>)
    requires Scalars(text)
    ensures Strip(Strip(EncodeAll(text))) == Strip(EncodeAll(text))
    ensures !HasIgnorable(Strip(EncodeAll(text)))
  {
    EncodedIsUntruncated(text);
    StripWhole(EncodeAll(text));
    StripTwiceIff(EncodeAll(text));
  }

  /** Plain ASCII text is never changed, and a text of code points exactly when none of them lies in an
      ignorable block. */
  lemma {:induction false} UntouchedIff(text: seq<bv32>)
    requires Scalars(text)
    ensures Visible(text) == text <==> forall i, k :: 0 <= i < |text| ==> !InBlock(text[i], k)
    ensures |Visible(text)| <= |text|
  {
    if |text| > 0 {
      UntouchedIff(text[1..]);
      IgnorableIff(text[0]);
      assert text == [text[0]] + text[1..];
      VisibleHead(text[0], text[1..], text);
    }
  }

  // ----- any bytes -----

  predicate IsLead(b: bv8) {
    Lead2(b) || Lead3(b) || Lead4(b)
  }

  /** The front of `s` is a complete sequence or a byte that starts none. */
  predicate WholeFront(s: Bytes)
    requires |s| > 0
  {
    Width(s) > 1 || !IsLead(s[0])
  }

  /** No sequence is cut short anywhere; stray continuation bytes are allowed. */
  predicate Untruncated(s: Bytes) {
    |s| > 0 ==> WholeFront(s) && Untruncated(s[Width(s)..])
  }

  /** A whole front reads the same whatever follows it. */
  lemma WholeFrontStays(s: Bytes, rest: Bytes)
    requires |s| > 0 && WholeFront(s)
    ensures var u := s[..Width(s)] + rest;
            Width(u) == Width(s) && CodePoint(u) == CodePoint(s) && WholeFront(u) && u[Width(s)..] == rest
  {
    var n := Width(s);
    var u := s[..n] + rest;
    assert forall i :: 0 <= i < n ==> u[i] == s[i];
    assert u[n..] == rest;
  }

  lemma {:induction false} StripWhole(s: Bytes)
    requires Untruncated(s)
    ensures Untruncated(Strip(s)) && !HasIgnorable(Strip(s))
  {
    if |s| > 0 {
      var rest := s[Width(s)..];
      StripWhole(rest);
      if !IsDefaultIgnorable(CodePoint(s)) {
        WholeFrontStays(s, Strip(rest));
        assert Strip(s) == s[..Width(s)] + Strip(rest);
      } else {
        assert Strip(s) == Strip(rest);
      }
    }
  }

  /** On any bytes a second removal changes nothing exactly when the first has left nothing
      ignorable; and it never leaves anything unless a sequence was cut short. */
  lemma StripTwiceIff(s: Bytes)
    ensures Strip(Strip(s)) == Strip(s) <==> !HasIgnorable(Strip(s))
    ensures Untruncated(s) ==> Strip(Strip(s)) == Strip(s)
  {
    StripShortens(Strip(s));
    if Untruncated(s) {
      StripWhole(s);
    }
  }

  lemma AsciiIsNoLead(b: bv8)
    requires b < 0x80
    ensures !IsLead(b)
  {
  }

  /** Well-formed text is a case of this. */
  lemma {:induction false} EncodedIsUntruncated(text: seq<bv32>)
    requires Scalars(text)
    ensures Untruncated(EncodeAll(text))
  {
    if |text| > 0 {
      var ch, s := text[0], EncodeAll(text);
      EncodedIsUntruncated(text[1..]);
      DecodesWhatWasEncoded(ch, EncodeAll(text[1..]));
      assert s[|Encode(ch)|..] == EncodeAll(text[1..]);
      if ch < 0x80 {
        assert s[0] == ch as bv8;
        AsciiIsNoLead(ch as bv8);
      }
    }
  }

  lemma StripZeroWidthSpace(rest: Bytes)
    ensures Strip([0xE2, 0x80, 0x8B] + rest) == Strip(rest)
  {
    var s: Bytes := [0xE2, 0x80, 0x8B] + rest;
    assert Width(s) == 3 && CodePoint(s) == 0x200B;
    assert s[3..] == rest;
  }

  lemma StripLoneByte(b: bv8, rest: Bytes)
    requires Width([b] + rest) == 1 && b >= 0x80 && b != 0xAD
    ensures Strip([b] + rest) == [b] + Strip(rest)
  {
    var s := [b] + rest;
    assert s[1..] == rest && s[..1] == [b];
    assert CodePoint(s) == b as bv32;
  }

  /** On malformed bytes it need not be: cutting out an ignorable code point can join the two
      halves of another one. */
  lemma MalformedNotIdempotent()
    ensures var s: Bytes := [0xE2, 0x80] + ([0xE2, 0x80, 0x8B] + [0x8B]);
            Strip(s) == [0xE2, 0x80, 0x8B] && Strip(Strip(s)) == []
  {
    var inner: Bytes := [0xE2, 0x80, 0x8B] + [0x8B];
    assert Strip(inner) == [0x8B] by {
      StripZeroWidthSpace([0x8B]);
      StripLoneByte(0x8B, []);
      var lone: Bytes := [0x8B];
      assert lone + [] == lone;
    }
    assert Strip([0x80] + inner) == [0x80, 0x8B] by { StripLoneByte(0x80, inner); }
    assert Strip([0xE2] + ([0x80] + inner)) == [0xE2, 0x80, 0x8B] by { StripLoneByte(0xE2, [0x80] + inner); }
    assert [0xE2] + ([0x80] + inner) == [0xE2, 0x80] + inner;
    StripZeroWidthSpace([]);
    var space: Bytes := [0xE2, 0x80, 0x8B];
    assert space + [] == space;
  }
}
