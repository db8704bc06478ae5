/** The Win32 string conversions: WideToUTF8 and UTF8ToWide over UTF-16 and UTF-8 code units.
    The ICU macros they use are given by what RFC 2781 and RFC 3629 say. */
module Unicode {
  import opened Wrappers

  type Unit = u: int | 0 <= u < 0x1_0000
  type Byte = b: int | 0 <= b < 0x100

  /** A scalar value in the sense of both RFCs: what an encoding can carry. */
  type Scalar = c: int | 0 <= c < 0xD800 || 0xE000 <= c <= 0x10_FFFF

  /** U_IS_UNICODE_CHAR on a scalar value: it is no noncharacter. */
  predicate IsUnicodeChar(c: Scalar) { !(0xFDD0 <= c <= 0xFDEF) && c as int % 0x1_0000 < 0xFFFE }

  type Code = c: Scalar | IsUnicodeChar(c)

  predicate IsLead(u: Unit) { 0xD800 <= u < 0xDC00 }

  predicate IsTrail(u: Unit) { 0xDC00 <= u < 0xE000 }

  function Supplementary(lead: Unit, trail: Unit): Scalar
    requires IsLead(lead) && IsTrail(trail)
  {
    0x1_0000 + (lead - 0xD800) * 0x400 + (trail - 0xDC00)
  }

  /** Section 2.1 of RFC 2781. */
  function Encode16(c: Scalar): (r: seq<Unit>)
    ensures 1 <= |r| <= 2
  {
    if c < 0x1_0000 then [c] else [0xD7C0 + c / 0x400, 0xDC00 + c % 0x400]
  }

  /** Section 3 of RFC 3629. */
  function Encode8(c: Scalar): (r: seq<Byte>)
    ensures 1 <= |r| <= 4
  {
    if c < 0x80 then [c]
    else if c < 0x800 then [0xC0 + c / 0x40, 0x80 + c % 0x40]
    else if c < 0x1_0000 then [0xE0 + c / 0x1000, 0x80 + c / 0x40 % 0x40, 0x80 + c % 0x40]
    else [0xF0 + c / 0x4_0000, 0x80 + c / 0x1000 % 0x40, 0x80 + c / 0x40 % 0x40, 0x80 + c % 0x40]
  }

  /** UTF-16 in numbers: below U+10000 the value itself, otherwise a leading and a trailing surrogate that carry the two
      halves of the value above U+10000. */
  lemma SurrogatePair(c: Scalar)
    ensures c < 0x1_0000 ==> Encode16(c) == [c]
    ensures c >= 0x1_0000 ==>
      var e := Encode16(c);
      && |e| == 2 && 0xD800 <= e[0] <= 0xDBFF && 0xDC00 <= e[1] <= 0xDFFF
      && c as int == 0x1_0000 + (e[0] as int - 0xD800) * 0x400 + (e[1] as int - 0xDC00)
  {
  }

  /** UTF-8 in numbers: how many bytes, in which ranges, and the bits they carry. */
  lemma Utf8Bytes(c: Scalar)
    ensures var e := Encode8(c);
      if c < 0x80 then e == [c]
      else if c < 0x800 then
        |e| == 2 && 0xC2 <= e[0] <= 0xDF && 0x80 <= e[1] <= 0xBF && c as int == (e[0] as int - 0xC0) * 0x40 + (e[1] as int - 0x80)
      else if c < 0x1_0000 then
        |e| == 3 && 0xE0 <= e[0] <= 0xEF && 0x80 <= e[1] <= 0xBF && 0x80 <= e[2] <= 0xBF
        && c as int == (e[0] as int - 0xE0) * 0x1000 + (e[1] as int - 0x80) * 0x40 + (e[2] as int - 0x80)
      else
        |e| == 4 && 0xF0 <= e[0] <= 0xF4 && 0x80 <= e[1] <= 0xBF && 0x80 <= e[2] <= 0xBF && 0x80 <= e[3] <= 0xBF
        && c as int == (e[0] as int - 0xF0) * 0x4_0000 + (e[1] as int - 0x80) * 0x1000 + (e[2] as int - 0x80) * 0x40
                       + (e[3] as int - 0x80)
  {
    var n: int := c;
    assert n / 0x40 == n / 0x1000 * 0x40 + n / 0x40 % 0x40;
    assert n / 0x1000 == n / 0x4_0000 * 0x40 + n / 0x1000 % 0x40;
  }

  /** U+10437 and U+20AC, as the RFCs give them or their like. */
  lemma Examples()
    ensures Encode16(0x1_0437) == [0xD801, 0xDC37] && Encode8(0x1_0437) == [0xF0, 0x90, 0x90, 0xB7]
    ensures Encode16(0x20AC) == [0x20AC] && Encode8(0x20AC) == [0xE2, 0x82, 0xAC]
  {
  }

  /** The values ICU does not take for characters: the last two of each plane and a block of 32. */
  lemma NoncharactersAre(c: Scalar, plane: int)
    ensures c as int in {plane * 0x1_0000 + 0xFFFE, plane * 0x1_0000 + 0xFFFF} ==> !IsUnicodeChar(c)
    ensures 0xFDD0 <= c <= 0xFDEF ==> !IsUnicodeChar(c)
    ensures !(0xFDD0 <= c <= 0xFDEF) && c as int / 0x1_0000 == plane && c as int < plane * 0x1_0000 + 0xFFFE ==> IsUnicodeChar(c)
  {
  }

  /** What one read finds: a character, or units that stand for none. */
  datatype Piece<U> = Char(code: Code) | Bad(units: seq<U>)

  predicate AllChars<U>(pieces: seq<Piece<U>>) {
    forall i :: 0 <= i < |pieces| ==> pieces[i].Char?
  }

  /** The characters found, in order. */
  function Codes<U>(pieces: seq<Piece<U>>): seq<Code> {
    if pieces == [] then []
    else (if pieces[0].Char? then [pieces[0].code] else []) + Codes(pieces[1..])
  }

  function Chars<U>(codes: seq<Code>): (r: seq<Piece<U>>)
    ensures |r| == |codes| && AllChars(r)
  {
    if codes == [] then [] else [Char(codes[0])] + Chars(codes[1..])
  }

  lemma {:induction false} CodesOfChars<U>(codes: seq<Code>)
    ensures Codes<U>(Chars<U>(codes)) == codes
  {
    if codes != [] {
      CodesOfChars<U>(codes[1..]);
      assert Chars<U>(codes)[1..] == Chars<U>(codes[1..]);
    }
  }

  /** The input units a piece was read from. */
  function Units16(p: Piece<Unit>): seq<Unit> { if p.Char? then Encode16(p.code) else p.units }

  function Units8(p: Piece<Byte>): seq<Byte> { if p.Char? then Encode8(p.code) else p.units }

  /** The first character or the first bad units of non-empty UTF-16 text. */
  function First16(s: seq<Unit>): (p: Piece<Unit>)
    requires s != []
    ensures Units16(p) != [] && Units16(p) <= s
  {
    if IsLead(s[0]) || IsTrail(s[0]) then
      if !IsLead(s[0]) || |s| < 2 || !IsTrail(s[1]) then Bad(s[..1])
      else if IsUnicodeChar(Supplementary(s[0], s[1])) then Char(Supplementary(s[0], s[1]))
      else Bad(s[..2])
    else if IsUnicodeChar(s[0]) then Char(s[0])
    else Bad(s[..1])
  }

  function Parse16(s: seq<Unit>): seq<Piece<Unit>> {
    if s == [] then [] else [First16(s)] + Parse16(s[|Units16(First16(s))|..])
  }

  predicate IsContinuation(b: Byte) { 0x80 <= b < 0xC0 }

  predicate HasTrail(s: seq<Byte>, n: nat) {
    n <= |s| && forall i :: 1 <= i < n ==> IsContinuation(s[i])
  }

  /** The value of a sequence with leading bits a and the continuation bytes of s. */
  function Value2(a: int, s: seq<Byte>): int
    requires |s| >= 2
  {
    a * 0x40 + (s[1] as int - 0x80)
  }

  function Value3(a: int, s: seq<Byte>): int
    requires |s| >= 3
  {
    Value2(a, s) * 0x40 + (s[2] as int - 0x80)
  }

  function Value4(a: int, s: seq<Byte>): int
    requires |s| >= 4
  {
    Value3(a, s) * 0x40 + (s[3] as int - 0x80)
  }

  function Shortest(least: int, c: int): Option<Scalar> {
    if least <= c && (0 <= c < 0xD800 || 0xE000 <= c <= 0x10_FFFF) then Some(c) else None
  }

  /** Section 4 of RFC 3629: a well-formed sequence is in shortest form and no surrogate. */
  function Decode8(s: seq<Byte>): Option<Scalar>
    requires s != []
  {
    var b: int := s[0];
    if b < 0x80 then Some(b)
    else if 0xC0 <= b < 0xE0 && HasTrail(s, 2) then Shortest(0x80, Value2(b - 0xC0, s))
    else if 0xE0 <= b < 0xF0 && HasTrail(s, 3) then Shortest(0x800, Value3(b - 0xE0, s))
    else if 0xF0 <= b < 0xF8 && HasTrail(s, 4) then Shortest(0x1_0000, Value4(b - 0xF0, s))
    else None
  }

  lemma Remainders(c: int, q: int, r: int)
    requires c == q * 0x40 + r && 0 <= r < 0x40
    ensures c / 0x40 == q && c % 0x40 == r && c / 0x1000 == q / 0x40 && c / 0x4_0000 == q / 0x1000
  {
  }

  lemma DecodedIsEncoded(s: seq<Byte>)
    requires s != [] && Decode8(s).Some?
    ensures Encode8(Decode8(s).value) <= s
  {
    var b: int := s[0];
    if b >= 0x80 {
      Remainders(Value2(b - 0xC0, s), b - 0xC0, s[1] as int - 0x80);
      if 0xE0 <= b {
        Remainders(Value2(b - 0xE0, s), b - 0xE0, s[1] as int - 0x80);
        Remainders(Value3(b - 0xE0, s), Value2(b - 0xE0, s), s[2] as int - 0x80);
      }
      if 0xF0 <= b {
        Remainders(Value2(b - 0xF0, s), b - 0xF0, s[1] as int - 0x80);
        Remainders(Value3(b - 0xF0, s), Value2(b - 0xF0, s), s[2] as int - 0x80);
        Remainders(Value4(b - 0xF0, s), Value3(b - 0xF0, s), s[3] as int - 0x80);
      }
    }
  }

  lemma Regroup(c: nat)
    ensures c / 0x1000 * 0x40 + c / 0x40 % 0x40 == c / 0x40 && c / 0x4_0000 * 0x40 + c / 0x1000 % 0x40 == c / 0x1000
  {
  }

  lemma ThreeBytesDecoded(c: Scalar, s: seq<Byte>)
    requires 0x800 <= c < 0x1_0000 && Encode8(c) <= s
    ensures Decode8(s) == Some(c)
  {
    Regroup(c);
    assert HasTrail(s, 3) && Value2(c / 0x1000, s) == c / 0x40;
  }

  lemma FourBytesDecoded(c: Scalar, s: seq<Byte>)
    requires 0x1_0000 <= c && Encode8(c) <= s
    ensures Decode8(s) == Some(c)
  {
    Regroup(c);
    assert HasTrail(s, 4) && Value2(c / 0x4_0000, s) == c / 0x1000;
    assert Value3(c / 0x4_0000, s) == c / 0x40;
  }

  lemma EncodedIsDecoded(c: Scalar, s: seq<Byte>)
    requires Encode8(c) <= s
    ensures Decode8(s) == Some(c)
  {
    if 0x80 <= c < 0x800 {
      assert HasTrail(s, 2) && Value2(c / 0x40, s) == c;
    } else if 0x800 <= c < 0x1_0000 {
      ThreeBytesDecoded(c, s);
    } else if 0x1_0000 <= c {
      FourBytesDecoded(c, s);
    }
  }

  /** How many bytes ICU skips at the front of malformed UTF-8; this differs between its versions. */
  type Recovery = f: seq<Byte> -> nat | forall s :: s != [] ==> 1 <= f(s) <= |s|
    witness (s: seq<Byte>) => |s|

  function First8(s: seq<Byte>, recovery: Recovery): (p: Piece<Byte>)
    requires s != []
    ensures Units8(p) != [] && Units8(p) <= s
  {
    match Decode8(s)
    case None => Bad(s[..recovery(s)])
    case Some(c) =>
      DecodedIsEncoded(s);
      if IsUnicodeChar(c) then Char(c) else Bad(Encode8(c))
  }

  function Parse8(s: seq<Byte>, recovery: Recovery): seq<Piece<Byte>> {
    if s == [] then [] else [First8(s, recovery)] + Parse8(s[|Units8(First8(s, recovery))|..], recovery)
  }

  function Encode8All(codes: seq<Code>): seq<Byte> {
    if codes == [] then [] else Encode8(codes[0]) + Encode8All(codes[1..])
  }

  function Encode16All(codes: seq<Code>): seq<Unit> {
    if codes == [] then [] else Encode16(codes[0]) + Encode16All(codes[1..])
  }

  function Flat16(pieces: seq<Piece<Unit>>): seq<Unit> {
    if pieces == [] then [] else Units16(pieces[0]) + Flat16(pieces[1..])
  }

  function Flat8(pieces: seq<Piece<Byte>>): seq<Byte> {
    if pieces == [] then [] else Units8(pieces[0]) + Flat8(pieces[1..])
  }

  /** Reading loses nothing: the pieces make up the input. */
  lemma {:induction false} Parse16Lossless(s: seq<Unit>)
    ensures Flat16(Parse16(s)) == s
  {
    if s != [] {
      Parse16Lossless(s[|Units16(First16(s))|..]);
    }
  }

  lemma {:induction false} Parse8Lossless(s: seq<Byte>, recovery: Recovery)
    ensures Flat8(Parse8(s, recovery)) == s
  {
    if s != [] {
      Parse8Lossless(s[|Units8(First8(s, recovery))|..], recovery);
    }
  }

  lemma {:induction false} FlatChars(p: seq<Piece<Unit>>, q: seq<Piece<Byte>>)
    requires AllChars(p) && AllChars(q)
    ensures Flat16(p) == Encode16All(Codes(p)) && Flat8(q) == Encode8All(Codes(q))
    decreases |p| + |q|
  {
    if p != [] {
      FlatChars(p[1..], q);
    } else if q != [] {
      FlatChars(p, q[1..]);
    }
  }

  lemma EncodedIsRead16(c: Code, rest: seq<Unit>)
    ensures First16(Encode16(c) + rest) == Char(c)
  {
    var s := Encode16(c) + rest;
    if 0x1_0000 <= c {
      assert IsLead(s[0]) && IsTrail(s[1]) && Supplementary(s[0], s[1]) == c;
    }
  }

  /** Reading undoes writing. */
  lemma {:induction false} Parse16OfEncode(codes: seq<Code>)
    ensures Parse16(Encode16All(codes)) == Chars(codes)
  {
    if codes != [] {
      var rest := Encode16All(codes[1..]);
      EncodedIsRead16(codes[0], rest);
      Parse16OfEncode(codes[1..]);
      assert (Encode16(codes[0]) + rest)[|Encode16(codes[0])|..] == rest;
    }
  }

  lemma {:induction false} Parse8OfEncode(codes: seq<Code>, recovery: Recovery)
    ensures Parse8(Encode8All(codes), recovery) == Chars(codes)
  {
    if codes != [] {
      var rest := Encode8All(codes[1..]);
      EncodedIsDecoded(codes[0], Encode8(codes[0]) + rest);
      Parse8OfEncode(codes[1..], recovery);
      assert (Encode8(codes[0]) + rest)[|Encode8(codes[0])|..] == rest;
    }
  }

  /** Units that stand for no character: a surrogate on its own, or the encoding of a noncharacter. */
  predicate NoCharacter(u: seq<Unit>) {
    || (|u| == 1 && (IsLead(u[0]) || IsTrail(u[0]) || !IsUnicodeChar(u[0])))
    || (|u| == 2 && IsLead(u[0]) && IsTrail(u[1]) && !IsUnicodeChar(Supplementary(u[0], u[1])))
  }

  /** A division of UTF-16 text into characters and minimal bad units, where no surrogate pair is torn apart. */
  predicate Divided(pieces: seq<Piece<Unit>>) {
    && (forall i :: 0 <= i < |pieces| && pieces[i].Bad? ==> NoCharacter(pieces[i].units))
    && (forall i :: 0 < i < |pieces| ==> !TornPair(pieces[i - 1], pieces[i]))
  }

  predicate TornPair(p: Piece<Unit>, q: Piece<Unit>) {
    p.Bad? && q.Bad? && |p.units| == 1 && |q.units| == 1 && IsLead(p.units[0]) && IsTrail(q.units[0])
  }

  lemma {:induction false} ParseDivides(s: seq<Unit>)
    ensures Divided(Parse16(s))
  {
    if s != [] {
      var p := First16(s);
      var rest := s[|Units16(p)|..];
      ParseDivides(rest);
      if rest != [] {
        assert !TornPair(p, First16(rest));
      }
    }
  }

  lemma FirstOfDivided(pieces: seq<Piece<Unit>>)
    requires pieces != [] && Divided(pieces)
    ensures Flat16(pieces) != [] && First16(Flat16(pieces)) == pieces[0]
  {
    var rest := Flat16(pieces[1..]);
    if pieces[0].Char? {
      EncodedIsRead16(pieces[0].code, rest);
    } else if |pieces| > 1 {
      assert !TornPair(pieces[0], pieces[1]) && pieces[1..][0] == pieces[1];
      assert pieces[1].Bad? ==> NoCharacter(pieces[1].units);
    }
  }

  /** There is only one such division of a text, and reading finds it. */
  lemma {:induction false} DivisionIsUnique(pieces: seq<Piece<Unit>>)
    requires Divided(pieces)
    ensures Parse16(Flat16(pieces)) == pieces
  {
    if pieces != [] {
      FirstOfDivided(pieces);
      DivisionIsUnique(pieces[1..]);
      assert Flat16(pieces)[|Units16(pieces[0])|..] == Flat16(pieces[1..]);
    }
  }

  datatype Converted<U> = Converted(success: bool, output: seq<U>)

  function ToUTF8(src: seq<Unit>): Converted<Byte> {
    Converted(AllChars(Parse16(src)), Encode8All(Codes(Parse16(src))))
  }

  function ToWide(src: seq<Byte>, recovery: Recovery): Converted<Unit> {
    Converted(AllChars(Parse8(src, recovery)), Encode16All(Codes(Parse8(src, recovery))))
  }

  lemma Back16(codes: seq<Code>, recovery: Recovery, pieces: seq<Piece<Byte>>)
    requires pieces == Parse8(Encode8All(codes), recovery)
    ensures AllChars(pieces) && Codes(pieces) == codes
  {
    Parse8OfEncode(codes, recovery);
    CodesOfChars<Byte>(codes);
  }

  lemma Back8(codes: seq<Code>, pieces: seq<Piece<Unit>>)
    requires pieces == Parse16(Encode16All(codes))
    ensures AllChars(pieces) && Codes(pieces) == codes
  {
    Parse16OfEncode(codes);
    CodesOfChars<Unit>(codes);
  }

  lemma Whole16(src: seq<Unit>, pieces: seq<Piece<Unit>>)
    requires pieces == Parse16(src) && AllChars(pieces)
    ensures Encode16All(Codes(pieces)) == src
  {
    Parse16Lossless(src);
    FlatChars(pieces, []);
  }

  lemma Whole8(src: seq<Byte>, recovery: Recovery, pieces: seq<Piece<Byte>>)
    requires pieces == Parse8(src, recovery) && AllChars(pieces)
    ensures Encode8All(Codes(pieces)) == src
  {
    Parse8Lossless(src, recovery);
    FlatChars([], pieces);
  }

  /** Back from UTF-8 comes the input without the units that stand for no character; if the first conversion
      reports success, the input itself. */
  lemma WideRoundTrip(src: seq<Unit>, recovery: Recovery)
    ensures ToWide(ToUTF8(src).output, recovery) == Converted(true, Encode16All(Codes(Parse16(src))))
    ensures ToUTF8(src).success ==> ToWide(ToUTF8(src).output, recovery) == Converted(true, src)
  {
    var pieces := Parse16(src);
    var utf8 := Encode8All(Codes(pieces));
    Back16(Codes(pieces), recovery, Parse8(utf8, recovery));
    if AllChars(pieces) {
      Whole16(src, pieces);
    }
  }

  /** The same from UTF-8, whatever ICU skips at malformed bytes. */
  lemma Utf8RoundTrip(src: seq<Byte>, recovery: Recovery)
    ensures ToUTF8(ToWide(src, recovery).output) == Converted(true, Encode8All(Codes(Parse8(src, recovery))))
    ensures ToWide(src, recovery).success ==> ToUTF8(ToWide(src, recovery).output) == Converted(true, src)
  {
    var pieces := Parse8(src, recovery);
    var wide := Encode16All(Codes(pieces));
    Back8(Codes(pieces), Parse16(wide));
    if AllChars(pieces) {
      Whole8(src, recovery, pieces);
    }
  }

  /** A conversion succeeds exactly on the encodings of character sequences. */
  lemma SuccessMeansWellFormed(wide: seq<Unit>, utf8: seq<Byte>, recovery: Recovery)
    ensures ToUTF8(wide).success <==> exists codes :: wide == Encode16All(codes)
    ensures ToWide(utf8, recovery).success <==> exists codes :: utf8 == Encode8All(codes)
  {
    Parse16Lossless(wide);
    Parse8Lossless(utf8, recovery);
    if ToUTF8(wide).success {
      FlatChars(Parse16(wide), []);
    }
    if ToWide(utf8, recovery).success {
      FlatChars([], Parse8(utf8, recovery));
    }
    forall codes
      ensures wide == Encode16All(codes) ==> ToUTF8(wide).success
      ensures utf8 == Encode8All(codes) ==> ToWide(utf8, recovery).success
    {
      Parse16OfEncode(codes);
      Parse8OfEncode(codes, recovery);
    }
  }

  /** Reads the character at charIndex; `last` is the index of the last unit read. */
  method ReadUnicodeCharacter16(src: seq<Unit>, charIndex: nat) returns (ok: bool, codePoint: int, last: nat)
    requires charIndex < |src|
    ensures last + 1 == charIndex + |Units16(First16(src[charIndex..]))| <= |src|
    ensures ok == First16(src[charIndex..]).Char?
    ensures ok ==> codePoint == First16(src[charIndex..]).code
  {
    last := charIndex;
    codePoint := src[charIndex];
    if IsLead(src[charIndex]) || IsTrail(src[charIndex]) {
      if !IsLead(src[charIndex]) || charIndex + 1 >= |src| || !IsTrail(src[charIndex + 1]) {
        return false, codePoint, last;
      }
      codePoint := Supplementary(src[charIndex], src[charIndex + 1]);
      last := last + 1;
    }
    ok := IsUnicodeChar(codePoint);
  }

  /** U8_NEXT: the code point, or a negative number, and the position behind it. */
  method U8Next(src: seq<Byte>, i: nat, recovery: Recovery) returns (codePoint: int, next: nat)
    requires i < |src|
    ensures i < next <= |src|
    ensures match Decode8(src[i..])
      case None => codePoint < 0 && next == i + recovery(src[i..])
      case Some(c) => codePoint == c && next == i + |Encode8(c)|
  {
    match Decode8(src[i..])
    case None =>
      codePoint, next := -1, i + recovery(src[i..]);
    case Some(c) =>
      DecodedIsEncoded(src[i..]);
      codePoint, next := c, i + |Encode8(c)|;
  }

  method ReadUnicodeCharacter8(src: seq<Byte>, charIndex: nat, recovery: Recovery)
    returns (ok: bool, codePoint: int, last: nat)
    requires charIndex < |src|
    ensures last + 1 == charIndex + |Units8(First8(src[charIndex..], recovery))| <= |src|
    ensures ok == First8(src[charIndex..], recovery).Char?
    ensures ok ==> codePoint == First8(src[charIndex..], recovery).code
  {
    codePoint, last := U8Next(src, charIndex, recovery);
    last := last - 1;
    ok := codePoint >= 0 && IsUnicodeChar(codePoint);
  }

  /** U8_APPEND_UNSAFE writes into a buffer with at least four bytes of room. */
  method U8AppendUnsafe(buffer: seq<Byte>, offset: nat, c: Code) returns (filled: seq<Byte>, next: nat)
    requires offset + 4 <= |buffer|
    ensures |filled| == |buffer| && next == offset + |Encode8(c)|
    ensures filled[..next] == buffer[..offset] + Encode8(c)
  {
    var bytes := Encode8(c);
    next := offset + |bytes|;
    filled := buffer[..offset] + bytes + buffer[next..];
  }

  method WriteUnicodeCharacter8(c: Code, text: seq<Byte>) returns (output: seq<Byte>)
    ensures output == text + Encode8(c)
  {
    if c <= 0x7F {
      return text + [c];
    }
    var offset := |text|;
    output := text + [0, 0, 0, 0];
    output, offset := U8AppendUnsafe(output, offset, c);
    output := output[..offset];
  }

  method WriteUnicodeCharacter16(c: Code, text: seq<Unit>) returns (output: seq<Unit>)
    ensures output == text + Encode16(c)
  {
    if c < 0x1_0000 {
      output := text + [c];
    } else {
      var offset := |text|;
      output := text + [0, 0];
      output := output[offset := 0xD7C0 + c / 0x400];
      output := output[offset + 1 := 0xDC00 + c % 0x400];
    }
  }

  lemma CodesSplit<U>(p: Piece<U>, rest: seq<Piece<U>>)
    ensures Codes([p] + rest) == (if p.Char? then [p.code] + Codes(rest) else Codes(rest))
    ensures AllChars([p] + rest) == (p.Char? && AllChars(rest))
  {
    var all := [p] + rest;
    assert all[1..] == rest;
    if AllChars(all) {
      assert all[0].Char?;
      forall i | 0 <= i < |rest|
        ensures rest[i].Char?
      {
        assert all[i + 1].Char?;
      }
    }
  }

  /** What writing makes of the pieces when the first one has been read. */
  lemma Write8(p: Piece<Unit>, rest: seq<Piece<Unit>>, codes: seq<Code>)
    requires codes == Codes(rest)
    ensures Encode8All(Codes([p] + rest)) == if p.Char? then Encode8(p.code) + Encode8All(codes) else Encode8All(codes)
  {
    CodesSplit(p, rest);
    if p.Char? {
      assert ([p.code] + codes)[1..] == codes;
    }
  }

  lemma Write16(p: Piece<Byte>, rest: seq<Piece<Byte>>, codes: seq<Code>)
    requires codes == Codes(rest)
    ensures Encode16All(Codes([p] + rest)) == if p.Char? then Encode16(p.code) + Encode16All(codes) else Encode16All(codes)
  {
    CodesSplit(p, rest);
    if p.Char? {
      assert ([p.code] + codes)[1..] == codes;
    }
  }

  /** What is left to read at position i, and its first piece. */
  ghost predicate Left16(src: seq<Unit>, i: nat, pieces: seq<Piece<Unit>>) {
    i <= |src| && pieces == Parse16(src[i..])
  }

  ghost predicate Left8(src: seq<Byte>, i: nat, recovery: Recovery, pieces: seq<Piece<Byte>>) {
    i <= |src| && pieces == Parse8(src[i..], recovery)
  }

  lemma ReadOne16(src: seq<Unit>, i: nat, next: nat, pieces: seq<Piece<Unit>>)
    requires i < |src| && Left16(src, i, pieces) && next == i + |Units16(First16(src[i..]))|
    ensures pieces != [] && pieces[0] == First16(src[i..]) && Left16(src, next, pieces[1..])
  {
    assert src[i..][next - i..] == src[next..];
  }

  lemma ParseStep8(s: seq<Byte>, recovery: Recovery, first: Piece<Byte>, pieces: seq<Piece<Byte>>)
    requires s != [] && first == First8(s, recovery) && pieces == Parse8(s, recovery)
    ensures pieces != [] && pieces[0] == first && pieces[1..] == Parse8(s[|Units8(first)|..], recovery)
  {
  }

  lemma ReadOne8(src: seq<Byte>, i: nat, next: nat, recovery: Recovery, pieces: seq<Piece<Byte>>)
    requires i < |src| && Left8(src, i, recovery, pieces) && next == i + |Units8(First8(src[i..], recovery))|
    ensures pieces != [] && pieces[0] == First8(src[i..], recovery) && Left8(src, next, recovery, pieces[1..])
  {
    ParseStep8(src[i..], recovery, First8(src[i..], recovery), pieces);
    assert src[i..][next - i..] == src[next..];
  }

  /** What has been written and what is left to read make up the result. */
  ghost predicate Writing8(goal: Converted<Byte>, left: seq<Piece<Unit>>, success: bool, output: seq<Byte>) {
    goal == Converted(success && AllChars(left), output + Encode8All(Codes(left)))
  }

  ghost predicate Writing16(goal: Converted<Unit>, left: seq<Piece<Byte>>, success: bool, output: seq<Unit>) {
    goal == Converted(success && AllChars(left), output + Encode16All(Codes(left)))
  }

  lemma WriteOne8(goal: Converted<Byte>, left: seq<Piece<Unit>>, success: bool, output: seq<Byte>, next: seq<Byte>)
    requires left != [] && Writing8(goal, left, success, output)
    requires next == if left[0].Char? then output + Encode8(left[0].code) else output
    ensures Writing8(goal, left[1..], success && left[0].Char?, next)
  {
    assert left == [left[0]] + left[1..];
    Write8(left[0], left[1..], Codes(left[1..]));
    CodesSplit(left[0], left[1..]);
  }

  lemma WriteOne16(goal: Converted<Unit>, left: seq<Piece<Byte>>, success: bool, output: seq<Unit>, next: seq<Unit>)
    requires left != [] && Writing16(goal, left, success, output)
    requires next == if left[0].Char? then output + Encode16(left[0].code) else output
    ensures Writing16(goal, left[1..], success && left[0].Char?, next)
  {
    assert left == [left[0]] + left[1..];
    Write16(left[0], left[1..], Codes(left[1..]));
    CodesSplit(left[0], left[1..]);
  }

  method WideToUTF8(src: seq<Unit>) returns (success: bool, output: seq<Byte>)
    ensures Converted(success, output) == ToUTF8(src)
  {
    success, output := true, [];
    var i := 0;
    ghost var left := Parse16(src);
    assert src[0..] == src;
    while i < |src|
      invariant Left16(src, i, left)
      invariant Writing8(ToUTF8(src), left, success, output)
      decreases |src| - i
    {
      ghost var from, was := i, output;
      var ok, codePoint;
      ok, codePoint, i := ReadUnicodeCharacter16(src, i);
      i := i + 1;
      ReadOne16(src, from, i, left);
      if ok {
        output := WriteUnicodeCharacter8(codePoint, output);
        WriteOne8(ToUTF8(src), left, success, was, output);
      } else {
        WriteOne8(ToUTF8(src), left, success, was, output);
        success := false;
      }
      left := left[1..];
    }
  }

  method UTF8ToWide(src: seq<Byte>, recovery: Recovery) returns (success: bool, output: seq<Unit>)
    ensures Converted(success, output) == ToWide(src, recovery)
  {
    success, output := true, [];
    var i := 0;
    ghost var left := Parse8(src, recovery);
    assert src[0..] == src;
    while i < |src|
      invariant Left8(src, i, recovery, left)
      invariant Writing16(ToWide(src, recovery), left, success, output)
      decreases |src| - i
    {
      ghost var from, was := i, output;
      var ok, codePoint;
      ok, codePoint, i := ReadUnicodeCharacter8(src, i, recovery);
      i := i + 1;
      ReadOne8(src, from, i, recovery, left);
      if ok {
        output := WriteUnicodeCharacter16(codePoint, output);
        WriteOne16(ToWide(src, recovery), left, success, was, output);
      } else {
        WriteOne16(ToWide(src, recovery), left, success, was, output);
        success := false;
      }
      left := left[1..];
    }
  }
}
