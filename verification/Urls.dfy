/** Percent-encoding (section 2.1 of RFC 3986) and file URLs. */
module Urls {
  import opened Strings

  /** Byte strings: every character stands for one octet. */
  predicate Octets(s: string) {
    forall i :: 0 <= i < |s| ==> s[i] as int < 256
  }

  predicate Safe(c: char) {
    '0' <= c <= '9' || 'A' <= c <= 'Z' || 'a' <= c <= 'z' || c == '.' || c == '_'
  }

  /** -1 for what is no hexadecimal digit. */
  function HexToDec(c: char): (r: int)
    ensures -1 <= r < 16
  {
    if '0' <= c <= '9' then c as int - '0' as int
    else if 'A' <= c <= 'F' then c as int - 'A' as int + 10
    else if 'a' <= c <= 'f' then c as int - 'a' as int + 10
    else -1
  }

  function DecToHex(d: int): char
    requires 0 <= d < 16
  {
    "0123456789ABCDEF"[d]
  }

  function EncodedChar(c: char): (r: string)
    requires c as int < 256
    ensures 1 <= |r| <= 3
  {
    if Safe(c) then [c] else ['%', DecToHex(c as int / 16), DecToHex(c as int % 16)]
  }

  function Encoded(s: string): (r: string)
    requires Octets(s)
    ensures |s| <= |r| <= 3 * |s|
  {
    if s == "" then "" else EncodedChar(s[0]) + Encoded(s[1..])
  }

  /** Whether s starts with an escape. */
  predicate IsEscape(s: string) {
    |s| > 2 && s[0] == '%' && HexToDec(s[1]) != -1 && HexToDec(s[2]) != -1
  }

  function Unescape(s: string): char
    requires IsEscape(s)
  {
    (HexToDec(s[1]) * 16 + HexToDec(s[2])) as char
  }

  function Decoded(s: string): (r: string)
    ensures |r| <= |s|
  {
    if s == "" then ""
    else if IsEscape(s) then [Unescape(s)] + Decoded(s[3..])
    else [s[0]] + Decoded(s[1..])
  }

  lemma DigitRoundTrip(d: int)
    requires 0 <= d < 16
    ensures HexToDec(DecToHex(d)) == d && Safe(DecToHex(d))
  {
  }

  /** What one octet becomes: letters, digits, full stop and underscore stay; any other octet becomes a percent sign and its
      two hexadecimal digits, in capitals. */
  lemma EncodedOctet(c: char)
    requires c as int < 256
    ensures ('0' <= c <= '9' || 'A' <= c <= 'Z' || 'a' <= c <= 'z' || c == '.' || c == '_') ==> EncodedChar(c) == [c]
    ensures !('0' <= c <= '9' || 'A' <= c <= 'Z' || 'a' <= c <= 'z' || c == '.' || c == '_') ==>
      EncodedChar(c) == ['%', "0123456789ABCDEF"[c as int / 16], "0123456789ABCDEF"[c as int % 16]]
  {
  }

  /** Octets are encoded one by one, in order. */
  lemma {:induction false} EncodedNext(s: string, c: char)
    requires Octets(s) && c as int < 256
    ensures Octets(s + [c]) && Encoded("") == "" && Encoded(s + [c]) == Encoded(s) + EncodedChar(c)
  {
    if s == "" {
      assert s + [c] == [c] && [c][1..] == "";
    } else {
      var rest := s[1..];
      assert (s + [c])[1..] == rest + [c];
      EncodedNext(rest, c);
      assert EncodedChar(s[0]) + (Encoded(rest) + EncodedChar(c)) == EncodedChar(s[0]) + Encoded(rest) + EncodedChar(c);
    }
  }

  /** Hexadecimal digits, capital or not, and nothing else. */
  lemma HexDigits(d: int, c: char)
    requires 0 <= d < 16
    ensures HexToDec("0123456789ABCDEF"[d]) == d && HexToDec("0123456789abcdef"[d]) == d
    ensures HexToDec(c) == -1 <==> !('0' <= c <= '9' || 'A' <= c <= 'F' || 'a' <= c <= 'f')
  {
  }

  /** A percent sign with two hexadecimal digits behind it becomes the octet they stand for. */
  lemma EscapeDecoded(hi: char, lo: char, rest: string)
    requires HexToDec(hi) != -1 && HexToDec(lo) != -1
    ensures Decoded(['%', hi, lo] + rest) == [(16 * HexToDec(hi) + HexToDec(lo)) as char] + Decoded(rest)
  {
    var s := ['%', hi, lo] + rest;
    assert s[3..] == rest;
  }

  /** Any other character stays as it is, also a percent sign without two hexadecimal digits behind it. */
  lemma OtherDecoded(c: char, rest: string)
    requires c != '%' || |rest| < 2 || HexToDec(rest[0]) == -1 || HexToDec(rest[1]) == -1
    ensures Decoded([c] + rest) == [c] + Decoded(rest)
  {
    var s := [c] + rest;
    assert s[1..] == rest;
    assert |s| > 2 ==> s[1] == rest[0] && s[2] == rest[1];
  }

  lemma DecodedStep(c: char, rest: string)
    requires c as int < 256
    ensures Decoded(EncodedChar(c) + rest) == [c] + Decoded(rest)
  {
    var s := EncodedChar(c) + rest;
    if Safe(c) {
      assert s[1..] == rest;
    } else {
      DigitRoundTrip(c as int / 16);
      DigitRoundTrip(c as int % 16);
      assert s[3..] == rest;
    }
  }

  /** Decoding undoes encoding, for every byte string. */
  lemma {:induction false} DecodeEncode(s: string)
    requires Octets(s)
    ensures Decoded(Encoded(s)) == s
  {
    if s != "" {
      DecodedStep(s[0], Encoded(s[1..]));
      DecodeEncode(s[1..]);
    }
  }

  /** Nothing but safe characters and escapes is left, so no delimiter of a URL is. */
  lemma {:induction false} EncodedIsClean(s: string)
    requires Octets(s)
    ensures forall i :: 0 <= i < |Encoded(s)| ==> Safe(Encoded(s)[i]) || Encoded(s)[i] == '%'
  {
    if s != "" {
      DigitRoundTrip(s[0] as int / 16);
      DigitRoundTrip(s[0] as int % 16);
      EncodedIsClean(s[1..]);
    }
  }

  /** What has been written and what is left to encode from position i on make up the result. */
  ghost predicate Encoding(done: string, src: string, i: nat) {
    i <= |src| && Octets(src) && Octets(src[i..]) && done + Encoded(src[i..]) == Encoded(src)
  }

  lemma EncodeOne(done: string, src: string, i: nat, written: string)
    requires i < |src| && Encoding(done, src, i) && written == EncodedChar(src[i])
    ensures Encoding(done + written, src, i + 1)
  {
    var rest := src[i + 1..];
    assert src[i..][1..] == rest;
    assert Encoded(src[i..]) == written + Encoded(rest);
    assert done + (written + Encoded(rest)) == done + written + Encoded(rest);
  }

  lemma EncodeStart(src: string)
    requires Octets(src)
    ensures Encoding("", src, 0)
  {
    assert src[0..] == src;
  }

  /** The buffer has room for three bytes a character; every write stays in it. */
  method EncodeURIComponent(src: string) returns (result: string)
    requires Octets(src)
    ensures result == Encoded(src)
  {
    var buffer := new char[|src| * 3];
    var end := 0;
    EncodeStart(src);
    for i := 0 to |src|
      invariant end <= 3 * i && Encoding(buffer[..end], src, i)
    {
      ghost var done := buffer[..end];
      var c := src[i];
      if Safe(c) {
        buffer[end] := c;
        end := end + 1;
        assert buffer[..end] == done + [c];
      } else {
        buffer[end] := '%';
        end := end + 1;
        buffer[end] := DecToHex(c as int / 16);
        end := end + 1;
        buffer[end] := DecToHex(c as int % 16);
        end := end + 1;
        assert buffer[..end] == done + ['%', DecToHex(c as int / 16), DecToHex(c as int % 16)];
      }
      EncodeOne(done, src, i, EncodedChar(c));
    }
    result := buffer[..end];
  }

  ghost predicate Decoding(done: string, src: string, i: nat) {
    i <= |src| && done + Decoded(src[i..]) == Decoded(src)
  }

  lemma DecodePlain(done: string, src: string, i: nat)
    requires i < |src| && Decoding(done, src, i) && !IsEscape(src[i..])
    ensures Decoding(done + [src[i]], src, i + 1)
  {
    var rest := src[i + 1..];
    assert src[i..][1..] == rest;
    assert done + ([src[i]] + Decoded(rest)) == done + [src[i]] + Decoded(rest);
  }

  lemma DecodeEscape(done: string, src: string, i: nat)
    requires i + 2 < |src| && Decoding(done, src, i) && IsEscape(src[i..])
    ensures Decoding(done + [Unescape(src[i..])], src, i + 3)
  {
    var c, rest := Unescape(src[i..]), src[i + 3..];
    assert src[i..][3..] == rest;
    assert done + ([c] + Decoded(rest)) == done + [c] + Decoded(rest);
  }

  lemma DecodeStart(src: string)
    ensures Decoding("", src, 0)
  {
    assert src[0..] == src;
  }

  /** The buffer has the size of the source; every write stays in it. */
  method DecodeURIComponent(src: string) returns (result: string)
    ensures result == Decoded(src)
  {
    var lastDec := |src| - 2;
    var buffer := new char[|src|];
    var end, i := 0, 0;
    DecodeStart(src);
    while i < lastDec
      invariant end <= i <= |src| && Decoding(buffer[..end], src, i)
      decreases |src| - i
    {
      ghost var done := buffer[..end];
      if src[i] == '%' {
        var dec1, dec2 := HexToDec(src[i + 1]), HexToDec(src[i + 2]);
        if dec1 != -1 && dec2 != -1 {
          DecodeEscape(done, src, i);
          buffer[end] := (dec1 * 16 + dec2) as char;
          end := end + 1;
          i := i + 3;
          assert buffer[..end] == done + [Unescape(src[i - 3..])];
          continue;
        }
      }
      DecodePlain(done, src, i);
      buffer[end] := src[i];
      end := end + 1;
      i := i + 1;
      assert buffer[..end] == done + [src[i - 1]];
    }
    while i < |src|
      invariant end <= i <= |src| && Decoding(buffer[..end], src, i)
      invariant lastDec <= i
    {
      ghost var done := buffer[..end];
      DecodePlain(done, src, i);
      buffer[end] := src[i];
      end := end + 1;
      i := i + 1;
      assert buffer[..end] == done + [src[i - 1]];
    }
    result := buffer[..end];
  }

  function ForwardSlashes(path: string): (r: string)
    ensures |r| == |path| && forall i :: 0 <= i < |path| ==> r[i] == if path[i] == '\\' then '/' else path[i]
  {
    seq(|path|, i requires 0 <= i < |path| => if path[i] == '\\' then '/' else path[i])
  }

  const AUTHORITY := "file://localhost"

  /** The pieces as they go into the URL; Windows keeps the drive letter and its colon. */
  function EncodedPieces(pieces: seq<string>, windows: bool): seq<string>
    requires forall p :: p in pieces ==> Octets(p)
  {
    seq(|pieces|, i requires 0 <= i < |pieces| => if windows && i == 0 then pieces[0] else Encoded(pieces[i]))
  }

  function DecodedPieces(pieces: seq<string>, windows: bool): seq<string> {
    seq(|pieces|, i requires 0 <= i < |pieces| => if windows && i == 0 then pieces[0] else Decoded(pieces[i]))
  }

  function Slashed(pieces: seq<string>): string {
    if pieces == [] then "" else "/" + pieces[0] + Slashed(pieces[1..])
  }

  lemma {:induction false} SlashedSplit(pieces: seq<string>, i: nat)
    requires i < |pieces|
    ensures Slashed(pieces[..i + 1]) == Slashed(pieces[..i]) + "/" + pieces[i]
  {
    if i == 0 {
      assert pieces[..1] == [pieces[0]];
    } else {
      SlashedSplit(pieces[1..], i - 1);
      assert pieces[..i + 1][1..] == pieces[1..][..i] && pieces[..i][1..] == pieces[1..][..i - 1];
    }
  }

  lemma {:induction false} SlashedIsJoined(pieces: seq<string>)
    requires pieces != []
    ensures Slashed(pieces) == "/" + Join(pieces, "/")
  {
    if |pieces| > 1 {
      SlashedIsJoined(pieces[1..]);
    }
  }

  lemma {:induction false} TokensOctets(s: string, delims: string)
    requires Octets(s)
    ensures forall t :: t in Tokens(s, delims) ==> Octets(t)
  {
    if s != "" {
      if s[0] in delims {
        TokensOctets(s[1..], delims);
      } else {
        var n := FindFirstOf(s, delims, 0);
        TokensOctets(s[n..], delims);
      }
    }
  }

  function PathPieces(path: string, windows: bool): (r: seq<string>)
    requires Octets(path)
    ensures forall p :: p in r ==> Octets(p) && p != "" && Free(p, "/")
  {
    var s := if windows then ForwardSlashes(path) else path;
    TokensOctets(s, "/");
    TokensClean(s, "/");
    Tokens(s, "/")
  }

  /** On Windows both kinds of slashes separate the pieces of a path, elsewhere the forward slash alone. */
  lemma PiecesAreTokens(path: string, windows: bool)
    requires Octets(path)
    ensures PathPieces(path, windows) == Tokens(path, if windows then "/\\" else "/")
  {
    if windows {
      SlashedTokens(path);
    }
  }

  lemma {:induction false} SlashedTokens(path: string)
    ensures Tokens(ForwardSlashes(path), "/") == Tokens(path, "/\\")
    decreases |path|
  {
    var s := ForwardSlashes(path);
    if path != "" {
      if path[0] in "/\\" {
        assert s[1..] == ForwardSlashes(path[1..]);
        SlashedTokens(path[1..]);
      } else {
        var n := FindFirstOf(path, "/\\", 0);
        FindIsFirst(s, "/", 0, n);
        assert s[..n] == path[..n] && s[n..] == ForwardSlashes(path[n..]);
        SlashedTokens(path[n..]);
      }
    }
  }

  /** The pieces of a file URL, each behind its own slash: the pieces of the path, encoded; the first one on Windows as it
      is. */
  lemma URLPieces(pieces: seq<string>, windows: bool, i: nat)
    requires (forall p :: p in pieces ==> Octets(p)) && i < |pieces|
    ensures |EncodedPieces(pieces, windows)| == |pieces|
    ensures EncodedPieces(pieces, windows)[i] == if windows && i == 0 then pieces[0] else Encoded(pieces[i])
    ensures Slashed(pieces[..i + 1]) == Slashed(pieces[..i]) + "/" + pieces[i] && Slashed([]) == ""
  {
    SlashedSplit(pieces, i);
  }

  method UseForwardSlashes(path: string) returns (p: string)
    ensures p == ForwardSlashes(path)
  {
    p := path;
    for i := 0 to |p|
      invariant |p| == |path| && p[i..] == path[i..]
      invariant forall k :: 0 <= k < i ==> p[k] == ForwardSlashes(path)[k]
    {
      assert p[i] == p[i..][0] == path[i];
      if p[i] == '\\' {
        p := p[i := '/'];
      }
    }
  }

  method PathToFileURL(path: string, windows: bool) returns (url: string)
    requires Octets(path)
    ensures "file://localhost" <= url
    ensures url == AUTHORITY + Slashed(EncodedPieces(PathPieces(path, windows), windows))
  {
    var p := path;
    if windows {
      p := UseForwardSlashes(path);
    }
    var pieces := Tokenize(p, [], "/", false);
    assert pieces == PathPieces(path, windows);
    url := AppendPieces(AUTHORITY, pieces, windows);
  }

  /** The loop that encodes and appends one piece after the other. */
  method AppendPieces(start: string, pieces: seq<string>, windows: bool) returns (url: string)
    requires forall p :: p in pieces ==> Octets(p)
    ensures url == start + Slashed(EncodedPieces(pieces, windows))
  {
    url := start;
    ghost var all := EncodedPieces(pieces, windows);
    for i := 0 to |pieces|
      invariant url == start + Slashed(all[..i])
    {
      SlashedSplit(all, i);
      assert start + (Slashed(all[..i]) + "/" + all[i]) == start + Slashed(all[..i]) + "/" + all[i];
      url := url + "/";
      var piece := pieces[i];
      if !windows || i != 0 {
        piece := EncodeURIComponent(piece);
      }
      url := url + piece;
    }
    assert all[..|all|] == all;
  }

  lemma {:induction false} EncodedPiecesClean(pieces: seq<string>, windows: bool)
    requires forall p :: p in pieces ==> Octets(p) && p != "" && Free(p, "/")
    ensures forall p :: p in EncodedPieces(pieces, windows) ==> p != "" && Free(p, "/")
  {
    forall i | 0 <= i < |pieces|
      ensures EncodedPieces(pieces, windows)[i] != "" && Free(EncodedPieces(pieces, windows)[i], "/")
    {
      assert pieces[i] in pieces;
      EncodedIsClean(pieces[i]);
    }
  }

  lemma DecodedPiecesBack(pieces: seq<string>, windows: bool)
    requires forall p :: p in pieces ==> Octets(p)
    ensures DecodedPieces(EncodedPieces(pieces, windows), windows) == pieces
  {
    forall i | 0 <= i < |pieces|
      ensures DecodedPieces(EncodedPieces(pieces, windows), windows)[i] == pieces[i]
    {
      DecodeEncode(pieces[i]);
    }
  }

  /** Splitting the path of a file URL and decoding its segments gives back the pieces of the original path. */
  lemma FileURLRoundTrip(path: string, windows: bool)
    requires Octets(path)
    ensures var url := AUTHORITY + Slashed(EncodedPieces(PathPieces(path, windows), windows));
      DecodedPieces(Tokens(url[|AUTHORITY|..], "/"), windows) == PathPieces(path, windows)
  {
    var pieces := PathPieces(path, windows);
    var encoded := EncodedPieces(pieces, windows);
    EncodedPiecesClean(pieces, windows);
    DecodedPiecesBack(pieces, windows);
    assert (AUTHORITY + Slashed(encoded))[|AUTHORITY|..] == Slashed(encoded);
    if pieces != [] {
      SlashedIsJoined(encoded);
      TokensOfJoin(encoded, "/", "/");
      assert Slashed(encoded)[1..] == Join(encoded, "/");
    }
  }
}
