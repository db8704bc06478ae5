/** FileUtils::Tokenize and FileUtils::Trim. */
module Strings {
  import opened Wrappers

  predicate Free(s: string, delims: string) {
    forall i :: 0 <= i < |s| ==> s[i] !in delims
  }

  /** The first position at or after `from` that holds a delimiter; |s| stands for npos. */
  function FindFirstOf(s: string, delims: string, from: nat): (r: nat)
    requires from <= |s|
    ensures from <= r <= |s| && (forall k :: from <= k < r ==> s[k] !in delims) && (r < |s| ==> s[r] in delims)
    decreases |s| - from
  {
    if from == |s| || s[from] in delims then from else FindFirstOf(s, delims, from + 1)
  }

  /** The first position at or after `from` that holds no delimiter; |s| stands for npos. */
  function FindFirstNotOf(s: string, delims: string, from: nat): (r: nat)
    requires from <= |s|
    ensures from <= r <= |s| && (forall k :: from <= k < r ==> s[k] in delims) && (r < |s| ==> s[r] !in delims)
    decreases |s| - from
  {
    if from == |s| || s[from] !in delims then from else FindFirstNotOf(s, delims, from + 1)
  }

  /** The maximal delimiter-free stretches of s, in order. */
  function Tokens(s: string, delims: string): seq<string>
    decreases |s|
  {
    if s == "" then []
    else if s[0] in delims then Tokens(s[1..], delims)
    else
      var n := FindFirstOf(s, delims, 0);
      [s[..n]] + Tokens(s[n..], delims)
  }

  lemma {:induction false} SkipDelimiters(s: string, delims: string, from: nat)
    requires from <= |s|
    ensures Tokens(s[from..], delims) == Tokens(s[FindFirstNotOf(s, delims, from)..], delims)
    decreases |s| - from
  {
    if from < |s| && s[from] in delims {
      assert s[from..][1..] == s[from + 1..];
      SkipDelimiters(s, delims, from + 1);
    }
  }

  lemma {:induction false} FindInSuffix(s: string, delims: string, from: nat, at: nat)
    requires from <= at <= |s|
    ensures FindFirstOf(s[from..], delims, at - from) == FindFirstOf(s, delims, at) - from
    decreases |s| - at
  {
    if at < |s| && s[at] !in delims {
      FindInSuffix(s, delims, from, at + 1);
    }
  }

  lemma {:induction false} FindIsFirst(s: string, delims: string, from: nat, r: nat)
    requires from <= r <= |s| && (forall k :: from <= k < r ==> s[k] !in delims) && (r < |s| ==> s[r] in delims)
    ensures FindFirstOf(s, delims, from) == r
    decreases r - from
  {
    if from < r {
      FindIsFirst(s, delims, from + 1, r);
    }
  }

  lemma SkipOne(s: string, delims: string, pos: nat)
    requires pos < |s| && s[pos] in delims
    ensures Tokens(s[pos..], delims) == Tokens(s[pos + 1..], delims)
  {
    assert s[pos..][1..] == s[pos + 1..];
  }

  lemma SplitToken(s: string, delims: string, lastPos: nat, pos: nat)
    requires lastPos < |s| && s[lastPos] !in delims && pos == FindFirstOf(s, delims, lastPos)
    ensures Tokens(s[lastPos..], delims) == [s[lastPos..pos]] + Tokens(s[pos..], delims)
  {
    FindInSuffix(s, delims, lastPos, lastPos);
    var t, n := s[lastPos..], pos - lastPos;
    assert t[..n] == s[lastPos..pos] && t[n..] == s[pos..];
  }

  /** One round of the tokenizer: a token, then the delimiters behind it. */
  lemma TokenStep(s: string, delims: string, lastPos: nat)
    requires lastPos < |s| && s[lastPos] !in delims
    ensures var pos := FindFirstOf(s, delims, lastPos);
      Tokens(s[lastPos..], delims) == [s[lastPos..pos]] + Tokens(s[FindFirstNotOf(s, delims, pos)..], delims)
  {
    SplitToken(s, delims, lastPos, FindFirstOf(s, delims, lastPos));
    SkipDelimiters(s, delims, FindFirstOf(s, delims, lastPos));
  }

  /** Appending tokens to a list, leaving out those already there if asked to. */
  function AddAll(list: seq<string>, tokens: seq<string>, skipIfFound: bool): seq<string>
    decreases |tokens|
  {
    if tokens == [] then list
    else AddAll(if skipIfFound && tokens[0] in list then list else list + [tokens[0]], tokens[1..], skipIfFound)
  }

  lemma {:induction false} AddAllPlain(list: seq<string>, tokens: seq<string>)
    ensures AddAll(list, tokens, false) == list + tokens
    decreases |tokens|
  {
    if tokens != [] {
      AddAllPlain(list + [tokens[0]], tokens[1..]);
      assert list + [tokens[0]] + tokens[1..] == list + tokens;
    }
  }

  /** Each token goes to the end of the list, unless it is there already and such tokens are to be skipped. */
  lemma {:induction false} AddAllNext(list: seq<string>, tokens: seq<string>, token: string, skipIfFound: bool)
    ensures AddAll(list, [], skipIfFound) == list
    ensures skipIfFound && token in AddAll(list, tokens, skipIfFound) ==>
      AddAll(list, tokens + [token], skipIfFound) == AddAll(list, tokens, skipIfFound)
    ensures !(skipIfFound && token in AddAll(list, tokens, skipIfFound)) ==>
      AddAll(list, tokens + [token], skipIfFound) == AddAll(list, tokens, skipIfFound) + [token]
    decreases |tokens|
  {
    if tokens == [] {
      assert tokens + [token] == [token] && [token][1..] == [];
    } else {
      assert (tokens + [token])[1..] == tokens[1..] + [token];
      AddAllNext(if skipIfFound && tokens[0] in list then list else list + [tokens[0]], tokens[1..], token, skipIfFound);
    }
  }

  method Contains(list: seq<string>, token: string) returns (found: bool)
    ensures found <==> token in list
  {
    for i := 0 to |list|
      invariant token !in list[..i]
    {
      if list[i] == token {
        return true;
      }
    }
    return false;
  }

  method Tokenize(s: string, list: seq<string>, delims: string, skipIfFound: bool) returns (tokens: seq<string>)
    ensures tokens == AddAll(list, Tokens(s, delims), skipIfFound)
    ensures !skipIfFound ==> tokens == list + Tokens(s, delims)
  {
    AddAllPlain(list, Tokens(s, delims));
    tokens := list;
    var lastPos := FindFirstNotOf(s, delims, 0);
    SkipDelimiters(s, delims, 0);
    assert s[0..] == s;
    var pos := FindFirstOf(s, delims, lastPos);
    while lastPos != |s|
      invariant lastPos <= |s| && pos == FindFirstOf(s, delims, lastPos)
      invariant lastPos < |s| ==> s[lastPos] !in delims
      invariant AddAll(tokens, Tokens(s[lastPos..], delims), skipIfFound) == AddAll(list, Tokens(s, delims), skipIfFound)
      decreases |s| - lastPos
    {
      var token := s[lastPos..pos];
      TokenStep(s, delims, lastPos);
      var found := false;
      if skipIfFound {
        found := Contains(tokens, token);
      }
      if !found {
        tokens := tokens + [token];
      }
      lastPos := FindFirstNotOf(s, delims, pos);
      pos := FindFirstOf(s, delims, lastPos);
    }
  }

  /** Tokens are exactly what one would split off: non-empty and free of delimiters... */
  lemma {:induction false} TokensClean(s: string, delims: string)
    ensures forall t :: t in Tokens(s, delims) ==> t != "" && Free(t, delims)
    decreases |s|
  {
    if s != "" {
      if s[0] in delims {
        TokensClean(s[1..], delims);
      } else {
        var n := FindFirstOf(s, delims, 0);
        TokensClean(s[n..], delims);
      }
    }
  }

  function Join(parts: seq<string>, separator: string): string {
    if parts == [] then ""
    else if |parts| == 1 then parts[0]
    else parts[0] + separator + Join(parts[1..], separator)
  }

  /** Joining puts the separator between neighbours and nowhere else. */
  lemma {:induction false} JoinNext(parts: seq<string>, part: string, separator: string)
    ensures Join([], separator) == "" && Join([part], separator) == part
    ensures parts != [] ==> Join(parts + [part], separator) == Join(parts, separator) + separator + part
  {
    if |parts| == 1 {
      assert (parts + [part])[1..] == [part];
    } else if |parts| > 1 {
      assert (parts + [part])[1..] == parts[1..] + [part];
      JoinNext(parts[1..], part, separator);
      var front, rest := parts[0] + separator, Join(parts[1..], separator);
      assert front + (rest + separator + part) == front + rest + separator + part;
    }
  }

  /** Delimiters in front do not matter. */
  lemma {:induction false} SkipGap(gap: string, s: string, delims: string)
    requires IsGap(gap, delims)
    ensures Tokens(gap + s, delims) == Tokens(s, delims)
  {
    if gap == "" {
      assert gap + s == s;
    } else {
      assert (gap + s)[1..] == gap[1..] + s;
      SkipGap(gap[1..], s, delims);
    }
  }

  /** A clean part with a delimiter or nothing behind it is a token. */
  lemma PartIsToken(part: string, rest: string, delims: string)
    requires part != "" && Free(part, delims) && (rest != "" ==> rest[0] in delims)
    ensures Tokens(part + rest, delims) == [part] + Tokens(rest, delims)
  {
    var s, n := part + rest, |part|;
    FindIsFirst(s, delims, 0, n);
    assert s[..n] == part && s[n..] == rest;
  }

  /** ... and tokenizing undoes joining, with any separator that is made of delimiters. */
  lemma {:induction false} TokensOfJoin(parts: seq<string>, separator: string, delims: string)
    requires separator != "" && IsGap(separator, delims) && forall t :: t in parts ==> t != "" && Free(t, delims)
    ensures Tokens(Join(parts, separator), delims) == parts
    decreases |parts|
  {
    if parts != [] {
      assert parts[0] in parts;
      forall t | t in parts[1..]
        ensures t != "" && Free(t, delims)
      {
        assert t in parts;
      }
      var rest := if |parts| == 1 then "" else separator + Join(parts[1..], separator);
      assert Join(parts, separator) == parts[0] + rest;
      PartIsToken(parts[0], rest, delims);
      TokensOfJoin(parts[1..], separator, delims);
      if |parts| > 1 {
        SkipGap(separator, Join(parts[1..], separator), delims);
      }
    }
  }

  predicate IsGap(gap: string, delims: string) { forall i :: 0 <= i < |gap| ==> gap[i] in delims }

  /** A text put together from parts with gaps around them. */
  function Laid(gaps: seq<string>, parts: seq<string>): string
    requires |gaps| == |parts| + 1
  {
    if parts == [] then gaps[0] else gaps[0] + parts[0] + Laid(gaps[1..], parts[1..])
  }

  /** Clean parts with gaps of delimiters around them, at least one delimiter between two parts. */
  ghost predicate IsLayout(gaps: seq<string>, parts: seq<string>, delims: string) {
    && |gaps| == |parts| + 1
    && (forall i :: 0 <= i < |gaps| ==> IsGap(gaps[i], delims))
    && (forall i :: 0 < i < |parts| ==> gaps[i] != "")
    && (forall i :: 0 <= i < |parts| ==> parts[i] != "" && Free(parts[i], delims))
  }

  lemma LayoutTail(gaps: seq<string>, parts: seq<string>, delims: string)
    requires parts != [] && IsLayout(gaps, parts, delims)
    ensures IsLayout(gaps[1..], parts[1..], delims)
    ensures Laid(gaps[1..], parts[1..]) != "" ==> Laid(gaps[1..], parts[1..])[0] in delims
  {
    if |parts| == 1 {
      assert Laid(gaps[1..], parts[1..]) == gaps[1];
    }
  }

  lemma {:induction false} TokensOfLaid(gaps: seq<string>, parts: seq<string>, delims: string)
    requires IsLayout(gaps, parts, delims)
    ensures Tokens(Laid(gaps, parts), delims) == parts
    decreases |parts|
  {
    if parts == [] {
      assert gaps[0] + "" == gaps[0];
      SkipGap(gaps[0], "", delims);
    } else {
      var rest := Laid(gaps[1..], parts[1..]);
      LayoutTail(gaps, parts, delims);
      TokensOfLaid(gaps[1..], parts[1..], delims);
      PartIsToken(parts[0], rest, delims);
      SkipGap(gaps[0], parts[0] + rest, delims);
      assert Laid(gaps, parts) == gaps[0] + (parts[0] + rest);
    }
  }

  /** How a text is made up of its tokens. */
  lemma {:induction false} LayoutOf(s: string, delims: string) returns (gaps: seq<string>)
    ensures IsLayout(gaps, Tokens(s, delims), delims) && Laid(gaps, Tokens(s, delims)) == s
    ensures s != "" && s[0] in delims ==> gaps[0] != ""
    decreases |s|
  {
    if s == "" {
      gaps := [""];
    } else if s[0] in delims {
      var more := LayoutOf(s[1..], delims);
      gaps := more[0 := [s[0]] + more[0]];
      LongerGap(more, Tokens(s[1..], delims), [s[0]]);
      assert s == [s[0]] + s[1..];
    } else {
      var n := FindFirstOf(s, delims, 0);
      var more := LayoutOf(s[n..], delims);
      assert s[n..] == "" || s[n..][0] in delims;
      gaps := [""] + more;
      AddPart(more, Tokens(s[n..], delims), s[..n], delims);
      assert s == s[..n] + s[n..];
    }
  }

  lemma LongerGap(gaps: seq<string>, parts: seq<string>, front: string)
    requires |gaps| == |parts| + 1
    ensures Laid(gaps[0 := front + gaps[0]], parts) == front + Laid(gaps, parts)
  {
    if parts != [] {
      assert gaps[0 := front + gaps[0]][1..] == gaps[1..];
      assert front + gaps[0] + parts[0] + Laid(gaps[1..], parts[1..]) == front + (gaps[0] + parts[0] + Laid(gaps[1..], parts[1..]));
    }
  }

  lemma AddPart(gaps: seq<string>, parts: seq<string>, part: string, delims: string)
    requires IsLayout(gaps, parts, delims) && part != "" && Free(part, delims) && (parts != [] ==> gaps[0] != "")
    ensures IsLayout([""] + gaps, [part] + parts, delims) && Laid([""] + gaps, [part] + parts) == part + Laid(gaps, parts)
  {
    assert ([""] + gaps)[1..] == gaps && ([part] + parts)[1..] == parts;
    assert "" + part + Laid(gaps, parts) == part + Laid(gaps, parts);
  }

  /** Tokens are determined by this: a list is what tokenizing yields if and only if the text is made up of its parts,
      all clean, with delimiters between any two of them and delimiters alone around them. */
  lemma TokensAreLayout(s: string, delims: string, parts: seq<string>)
    ensures Tokens(s, delims) == parts <==> exists gaps :: IsLayout(gaps, parts, delims) && Laid(gaps, parts) == s
  {
    var gaps := LayoutOf(s, delims);
    forall other | IsLayout(other, parts, delims) && Laid(other, parts) == s
      ensures Tokens(s, delims) == parts
    {
      TokensOfLaid(other, parts, delims);
    }
  }

  /** The text without its delimiters. */
  function Kept(s: string, delims: string): string {
    if s == "" then "" else (if s[0] in delims then "" else [s[0]]) + Kept(s[1..], delims)
  }

  /** Nothing but delimiters is lost: the tokens one behind the other are the text without its delimiters. */
  lemma {:induction false} TokensKeepTheRest(s: string, delims: string)
    ensures Join(Tokens(s, delims), "") == Kept(s, delims)
    decreases |s|
  {
    if s != "" {
      if s[0] in delims {
        TokensKeepTheRest(s[1..], delims);
      } else {
        var n := FindFirstOf(s, delims, 0);
        TokensKeepTheRest(s[n..], delims);
        KeptFree(s, n, delims);
        var rest := Tokens(s[n..], delims);
        assert ([s[..n]] + rest)[1..] == rest;
        assert rest == [] ==> Kept(s[n..], delims) == "";
      }
    }
  }

  lemma {:induction false} KeptFree(s: string, n: nat, delims: string)
    requires n <= |s| && forall k :: 0 <= k < n ==> s[k] !in delims
    ensures Kept(s, delims) == s[..n] + Kept(s[n..], delims)
  {
    if n > 0 {
      assert s[1..][n - 1..] == s[n..] && s[..n] == [s[0]] + s[1..][..n - 1];
      KeptFree(s[1..], n - 1, delims);
    } else {
      assert s[0..] == s;
    }
  }

  /** s without leading and trailing spaces. */
  function Trimmed(s: string): string { TrimLeft(TrimRight(s)) }

  function TrimRight(s: string): string {
    if s != "" && s[|s| - 1] == ' ' then TrimRight(s[..|s| - 1]) else s
  }

  function TrimLeft(s: string): string {
    if s != "" && s[0] == ' ' then TrimLeft(s[1..]) else s
  }

  method Trim(s: string) returns (c: string)
    ensures c == Trimmed(s)
  {
    c := s;
    while c != "" && c[|c| - 1] == ' '
      invariant TrimRight(c) == TrimRight(s)
      decreases |c|
    {
      c := c[..|c| - 1];
    }
    while c != "" && c[0] == ' '
      invariant TrimLeft(c) == Trimmed(s)
      decreases |c|
    {
      c := c[1..];
    }
  }

  predicate NoEdgeSpace(s: string) {
    s != "" ==> s[0] != ' ' && s[|s| - 1] != ' '
  }

  /** Trimming removes exactly the spaces at both ends. */
  lemma {:induction false} TrimPadded(s: string)
    requires NoEdgeSpace(s)
    ensures Trimmed(s) == s && Trimmed([' '] + s) == s
  {
    if s == "" {
      assert [' '][..0] == "";
      assert TrimRight([' ']) == TrimRight("");
    } else {
      assert ([' '] + s)[1..] == s;
    }
  }

  /** Whatever number of spaces is put around a text that has none at its ends, trimming gives back the text. */
  lemma {:induction false} TrimmedOfPadded(left: string, s: string, right: string)
    requires NoEdgeSpace(s) && (forall c :: c in left + right ==> c == ' ')
    ensures Trimmed(left + s + right) == s
    decreases |left| + |right|
  {
    assert forall c :: c in left ==> c in left + right;
    if right != "" {
      var n := |right| - 1;
      var t := left + s + right;
      assert right[n] in left + right && t[|t| - 1] == ' ';
      assert t[..|t| - 1] == left + s + right[..n];
      assert forall c :: c in left + right[..n] ==> c in left + right;
      TrimmedOfPadded(left, s, right[..n]);
    } else if s == "" {
      assert left + s + right == left;
      AllSpaces(left);
    } else {
      assert left + s + right == left + s;
      var t := left + s;
      assert t[|t| - 1] == s[|s| - 1];
      TrimLeftOfPadded(left, s);
    }
  }

  lemma {:induction false} AllSpaces(s: string)
    requires forall c :: c in s ==> c == ' '
    ensures TrimRight(s) == "" && Trimmed(s) == ""
  {
    if s != "" {
      var n := |s| - 1;
      assert s[n] in s;
      assert forall c :: c in s[..n] ==> c in s;
      AllSpaces(s[..n]);
    }
  }

  lemma {:induction false} TrimLeftOfPadded(left: string, s: string)
    requires s != "" && s[0] != ' ' && (forall c :: c in left ==> c == ' ')
    ensures TrimLeft(left + s) == s
  {
    if left == "" {
      assert left + s == s;
    } else {
      assert left[0] in left && (left + s)[1..] == left[1..] + s;
      assert forall c :: c in left[1..] ==> c in left;
      TrimLeftOfPadded(left[1..], s);
    }
  }

  lemma {:induction false} TrimLeftClean(s: string)
    requires s != "" && s[|s| - 1] != ' '
    ensures TrimLeft(s) != "" && TrimLeft(s)[0] != ' ' && TrimLeft(s)[|TrimLeft(s)| - 1] != ' '
  {
    if s[0] == ' ' {
      TrimLeftClean(s[1..]);
    }
  }

  lemma {:induction false} TrimRightClean(s: string)
    ensures TrimRight(s) != "" ==> TrimRight(s)[|TrimRight(s)| - 1] != ' '
  {
    if s != "" && s[|s| - 1] == ' ' {
      TrimRightClean(s[..|s| - 1]);
    }
  }

  lemma TrimmedClean(s: string)
    ensures NoEdgeSpace(Trimmed(s))
  {
    TrimRightClean(s);
    if TrimRight(s) != "" {
      TrimLeftClean(TrimRight(s));
    }
  }

  lemma {:induction false} TrimRightCons(c: char, s: string, t: string)
    requires t == [c] + s
    ensures TrimRight(t) == if TrimRight(s) != "" then [c] + TrimRight(s) else if c == ' ' then "" else [c]
    decreases |s|
  {
    if s == "" {
      assert t[..0] == "";
    } else if s[|s| - 1] == ' ' {
      assert t[..|t| - 1] == [c] + s[..|s| - 1];
      TrimRightCons(c, s[..|s| - 1], t[..|t| - 1]);
    }
  }

  /** The spaces at the end of a text go without touching what stands in front of them. */
  lemma {:induction false} TrimRightKeeps(a: string, b: string, t: string)
    requires a != "" && a[|a| - 1] != ' ' && t == a + b
    ensures TrimRight(t) == a + TrimRight(b)
  {
    assert t == [a[0]] + t[1..] && t[1..] == a[1..] + b;
    TrimRightCons(a[0], t[1..], t);
    if |a| == 1 {
      assert t[1..] == b;
    } else {
      TrimRightKeeps(a[1..], b, t[1..]);
    }
  }

  lemma {:induction false} TrimLeftKeeps(a: string, b: string, t: string)
    requires b != "" && b[0] != ' ' && t == a + b
    ensures TrimLeft(t) == TrimLeft(a) + b
  {
    if a == "" {
      assert t == b;
    } else if a[0] == ' ' {
      assert t[1..] == a[1..] + b;
      TrimLeftKeeps(a[1..], b, t[1..]);
    }
  }

  lemma {:induction false} TrimLeftTwice(s: string)
    ensures TrimLeft(TrimLeft(s)) == TrimLeft(s) && (TrimLeft(s) != "" ==> TrimLeft(s)[0] != ' ')
    ensures forall c :: c in TrimLeft(s) ==> c in s
  {
    if s != "" && s[0] == ' ' {
      TrimLeftTwice(s[1..]);
    }
  }

  lemma TrimRightTwice(s: string)
    ensures TrimRight(TrimRight(s)) == TrimRight(s)
  {
    TrimRightClean(s);
  }

  /** It does not matter which end is trimmed first. */
  lemma {:induction false} TrimsCommute(s: string)
    ensures TrimRight(TrimLeft(s)) == Trimmed(s)
  {
    if s != "" {
      assert s == [s[0]] + s[1..];
      TrimRightCons(s[0], s[1..], s);
      if s[0] == ' ' {
        TrimsCommute(s[1..]);
        if TrimRight(s[1..]) != "" {
          assert ([' '] + TrimRight(s[1..]))[1..] == TrimRight(s[1..]);
        }
      }
    }
  }

  lemma TrimmedAfterTrim(s: string)
    ensures Trimmed(TrimLeft(s)) == Trimmed(s) && Trimmed(TrimRight(s)) == Trimmed(s)
    ensures TrimLeft(s) == "" <==> Trimmed(s) == ""
    ensures TrimRight(s) == "" <==> Trimmed(s) == ""
  {
    TrimsCommute(s);
    TrimLeftTwice(s);
    TrimsCommute(TrimLeft(s));
    TrimRightTwice(s);
    TrimRightClean(s);
    if TrimRight(s) != "" {
      TrimLeftClean(TrimRight(s));
    }
    if TrimLeft(s) != "" {
      assert TrimLeft(s) == [TrimLeft(s)[0]] + TrimLeft(s)[1..];
      TrimRightCons(TrimLeft(s)[0], TrimLeft(s)[1..], TrimLeft(s));
    }
  }

  lemma TrimmedSpace(s: string, t: string)
    requires t == [' '] + s
    ensures Trimmed(t) == Trimmed(s)
  {
    TrimRightCons(' ', s, t);
    if TrimRight(s) != "" {
      assert ([' '] + TrimRight(s))[1..] == TrimRight(s);
    }
  }

  predicate StandsAt(s: string, part: string, i: nat) {
    i + |part| <= |s| && forall k :: 0 <= k < |part| ==> s[i + k] == part[k]
  }

  predicate Has(s: string, part: string) {
    exists i :: 0 <= i <= |s| && StandsAt(s, part, i)
  }

  /** std::string::find: the first place at or after `from` where `part` stands. */
  function Find(s: string, part: string, from: nat): (r: Option<nat>)
    requires from <= |s|
    ensures r.Some? ==> from <= r.value <= |s| && StandsAt(s, part, r.value)
    ensures r.Some? ==> forall i :: from <= i < r.value ==> !StandsAt(s, part, i)
    ensures r.None? ==> forall i :: from <= i <= |s| ==> !StandsAt(s, part, i)
    decreases |s| - from
  {
    if StandsAt(s, part, from) then Some(from)
    else if from == |s| then None
    else Find(s, part, from + 1)
  }
}
