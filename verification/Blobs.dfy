/** Splitting and concatenating blobs. */
module Blobs {
  import opened Wrappers
  import opened Strings

  /** The C string at the start of a buffer. */
  function UpToNul(s: string): (r: string)
    ensures r <= s && '\0' !in r && (r == s || s[|r|] == '\0')
  {
    if s == "" || s[0] == '\0' then "" else [s[0]] + UpToNul(s[1..])
  }

  // ---------------------------------------------------------------- splitting

  /** The pieces of a text: each time one character is skipped, however long the separator is. */
  function Pieces(target: string, separator: string): seq<string>
    decreases |target|
  {
    var next := Find(target, separator, 0);
    if target == "" || next.None? then (if separator == "" then [] else [target])
    else if separator == "" then [target[..1]] + Pieces(target[1..], separator)
    else [target[..next.value]] + Pieces(target[next.value + 1..], separator)
  }

  function Take<T>(s: seq<T>, limit: int): seq<T> {
    if limit < 0 then [] else if |s| <= limit then s else s[..limit]
  }

  lemma {:induction false} PiecesExist(target: string, separator: string)
    requires separator != "" || target != ""
    ensures Pieces(target, separator) != []
  {
  }

  lemma SeparatorSplits(target: string, separator: string, next: nat)
    requires separator != "" && StandsAt(target, separator, next)
    ensures next < |target| && target == target[..next] + separator[..1] + target[next + 1..]
  {
    assert target[next + 0] == separator[0];
  }

  lemma JoinedCons(piece: string, rest: seq<string>, all: seq<string>, separator: string)
    requires all == [piece] + rest && rest != []
    ensures Join(all, separator) == piece + separator + Join(rest, separator)
  {
    assert all[1..] == rest;
  }

  /** Without a separator the pieces are the characters. */
  lemma {:induction false} JoinCharacters(target: string)
    ensures Join(Pieces(target, ""), "") == target
    decreases |target|
  {
    if target != "" {
      var rest := Pieces(target[1..], "");
      JoinCharacters(target[1..]);
      if rest != [] {
        JoinedCons(target[..1], rest, Pieces(target, ""), "");
      }
    }
  }

  /** Joining the pieces with the first character of the separator always gives back the text. */
  lemma {:induction false} JoinWithFirst(target: string, separator: string, first: string)
    requires separator != "" && first == separator[..1]
    ensures Join(Pieces(target, separator), first) == target
    decreases |target|
  {
    var found := Find(target, separator, 0);
    if target != "" && found.Some? {
      var next := found.value;
      var rest := Pieces(target[next + 1..], separator);
      SeparatorSplits(target, separator, next);
      JoinWithFirst(target[next + 1..], separator, first);
      PiecesExist(target[next + 1..], separator);
      JoinedCons(target[..next], rest, Pieces(target, separator), first);
    }
  }

  lemma PiecesOfPlain(target: string, separator: string)
    requires separator != ""
    ensures Pieces(target, separator) == [target] <==> !Has(target, separator)
    ensures |Pieces(target, separator)| == 1 <==> !Has(target, separator)
  {
    var next := Find(target, separator, 0);
    if target != "" && next.Some? {
      PiecesExist(target[next.value + 1..], separator);
    }
  }

  /** A longer separator makes a longer join, if it is used at all. */
  lemma {:induction false} LongerJoin(pieces: seq<string>, a: string, b: string)
    requires |a| > |b|
    ensures |Join(pieces, a)| >= |Join(pieces, b)|
    ensures |pieces| > 1 ==> |Join(pieces, a)| > |Join(pieces, b)|
  {
    if |pieces| > 1 {
      LongerJoin(pieces[1..], a, b);
    }
  }

  lemma LongSeparatorLost(target: string, separator: string, pieces: seq<string>)
    requires |separator| > 1 && pieces == Pieces(target, separator) && |pieces| > 1
    ensures Join(pieces, separator) != target
  {
    var first := separator[..1];
    JoinWithFirst(target, separator, first);
    LongerJoin(pieces, separator, first);
  }

  /** Joining the pieces with the separator gives back the text exactly if the separator is at most one
      character long or does not occur. */
  lemma JoinUndoesSplit(target: string, separator: string, pieces: seq<string>)
    requires pieces == Pieces(target, separator)
    ensures Join(pieces, separator) == target <==> |separator| <= 1 || !Has(target, separator)
  {
    if separator == "" {
      JoinCharacters(target);
    } else if |separator| == 1 {
      JoinWithFirst(target, separator, separator[..1]);
    } else {
      PiecesExist(target, separator);
      PiecesOfPlain(target, separator);
      if |pieces| > 1 {
        LongSeparatorLost(target, separator, pieces);
      }
    }
  }

  /** A separator of two characters: its second one stays at the front of the next piece. */
  lemma TwoCharacterSeparator()
    ensures Pieces("a--b", "--") == ["a", "-b"] && Join(Pieces("a--b", "--"), "--") == "a---b"
  {
    var target := "a--b";
    assert StandsAt(target, "--", 1);
    assert !StandsAt(target, "--", 0) by {
      assert target[0 + 0] != "--"[0];
    }
    assert Find(target, "--", 0) == Some(1);
    assert target[..1] == "a" && target[2..] == "-b";
    assert !Has("-b", "--") by {
      assert "-b"[0 + 1] != "--"[1];
    }
    PiecesOfPlain("-b", "--");
    assert ["a", "-b"][1..] == ["-b"];
  }

  /** No piece holds the separator; without one the pieces are single characters. */
  lemma {:induction false} PiecesAreFree(target: string, separator: string)
    ensures forall i :: 0 <= i < |Pieces(target, separator)| ==>
      if separator == "" then |Pieces(target, separator)[i]| == 1 else !Has(Pieces(target, separator)[i], separator)
    decreases |target|
  {
    var next := Find(target, separator, 0);
    if target != "" && next.Some? {
      if separator == "" {
        PiecesAreFree(target[1..], separator);
      } else {
        PiecesAreFree(target[next.value + 1..], separator);
        var token := target[..next.value];
        forall i | 0 <= i <= |token|
          ensures !StandsAt(token, separator, i)
        {
          assert StandsAt(token, separator, i) ==> StandsAt(target, separator, i);
        }
      }
    }
  }

  lemma FirstOccurrence(piece: string, separator: string, target: string)
    requires |separator| == 1 && !Has(piece, separator) && piece + separator <= target
    ensures Find(target, separator, 0) == Some(|piece|)
  {
    assert target[|piece|] == separator[0];
    assert StandsAt(target, separator, |piece|);
    assert forall i :: 0 <= i < |piece| ==> (StandsAt(target, separator, i) <==> StandsAt(piece, separator, i));
  }

  /** A one-character separator: splitting undoes joining. */
  lemma {:induction false} SplitUndoesJoin(pieces: seq<string>, separator: string)
    requires |separator| == 1 && pieces != [] && forall i :: 0 <= i < |pieces| ==> !Has(pieces[i], separator)
    ensures Pieces(Join(pieces, separator), separator) == pieces
  {
    var target := Join(pieces, separator);
    if |pieces| == 1 {
      PiecesOfPlain(target, separator);
    } else {
      var rest := Join(pieces[1..], separator);
      var n := |pieces[0]|;
      FirstOccurrence(pieces[0], separator, target);
      assert target[..n] == pieces[0] && target[n + 1..] == rest;
      SplitUndoesJoin(pieces[1..], separator);
    }
  }

  /** The pieces listed so far and those to come; once the limit is reached nothing is added. */
  ghost predicate Splitting(goal: seq<string>, list: seq<string>, left: seq<string>, limit: int) {
    (list == [] || |list| <= limit) && goal == Take(list + left, limit)
  }

  lemma LimitReached(goal: seq<string>, list: seq<string>, left: seq<string>, limit: int)
    requires Splitting(goal, list, left, limit) && |list| >= limit
    ensures goal == list
  {
    assert (list + left)[..|list|] == list;
  }

  lemma SplitOne(goal: seq<string>, list: seq<string>, left: seq<string>, limit: int)
    requires Splitting(goal, list, left, limit) && |list| < limit && left != []
    ensures Splitting(goal, list + [left[0]], left[1..], limit)
  {
    assert list + [left[0]] + left[1..] == list + left;
  }

  lemma NextPiece(target: string, separator: string, next: Option<nat>)
    requires next == Find(target, separator, 0) && target != "" && next.Some?
    ensures next.value < |target|
    ensures Pieces(target, separator)
         == [if separator == "" then target[..1] else target[..next.value]] + Pieces(target[next.value + 1..], separator)
  {
    if separator != "" {
      SeparatorSplits(target, separator, next.value);
    }
  }

  /** `buffer` holds the bytes of the blob; an absent limit is the largest int. */
  method Split(buffer: string, separator: Option<string>, limit: Option<int>) returns (list: seq<string>)
    ensures buffer == "" || separator.None? ==> list == [UpToNul(buffer)]
    ensures buffer != "" && separator.Some? ==>
      list == Take(Pieces(UpToNul(buffer), separator.value), if limit.Some? then limit.value else 0x7FFF_FFFF)
    ensures buffer != "" && separator.Some? && limit.Some? ==>
      var pieces := Pieces(UpToNul(buffer), separator.value);
      list <= pieces && |list| == if limit.value < 0 then 0 else if limit.value < |pieces| then limit.value else |pieces|
  {
    list := [];
    var target := "";
    if |buffer| > 0 {
      target := UpToNul(buffer);
    } else {
      return [target];
    }
    if separator.None? {
      return [target];
    }
    list := SplitAt(target, separator.value, if limit.Some? then limit.value else 0x7FFF_FFFF);
  }

  method SplitAt(text: string, separator: string, limit: int) returns (list: seq<string>)
    ensures list == Take(Pieces(text, separator), limit)
  {
    ghost var left := Pieces(text, separator);
    ghost var goal := Take(left, limit);
    list := [];
    var target := text;
    assert [] + left == left;
    var next := Find(target, separator, 0);
    while |target| > 0 && next.Some?
      invariant next == Find(target, separator, 0) && left == Pieces(target, separator)
      invariant Splitting(goal, list, left, limit)
      decreases |target|
    {
      var token := if |separator| == 0 then target[..1] else target[..next.value];
      NextPiece(target, separator, next);
      target := target[next.value + 1..];
      next := Find(target, separator, 0);
      if |list| >= limit {
        LimitReached(goal, list, left, limit);
        return;
      }
      SplitOne(goal, list, left, limit);
      list := list + [token];
      left := left[1..];
    }
    if |list| < limit && |separator| != 0 {
      list := list + [target];
    }
  }

  // ---------------------------------------------------------------- concatenating

  class Blob {
    const buffer: array?<char>
    const length: nat

    ghost predicate Valid()
      reads buffer
    {
      length > 0 ==> buffer != null && buffer.Length == length + 1 && buffer[length] == '\0'
    }

    function Contents(): (s: string)
      requires Valid()
      reads buffer
      ensures |s| == length
    {
      if length == 0 then "" else buffer[..length]
    }

    /** Keeps the buffer it is given. */
    constructor WithReference(buffer: array?<char>, length: nat)
      requires length > 0 ==> buffer != null && buffer.Length == length + 1 && buffer[length] == '\0'
      ensures this.buffer == buffer && this.length == length && Valid()
    {
      this.buffer, this.length := buffer, length;
    }

    constructor WithCopy(s: string)
      ensures Valid() && Contents() == s && (buffer != null ==> fresh(buffer))
    {
      var copy: array?<char> := null;
      if |s| > 0 {
        copy := new char[|s| + 1];
        for i := 0 to |s|
          invariant copy[..i] == s[..i]
        {
          copy[i] := s[i];
        }
        copy[|s|] := '\0';
      }
      buffer, length := copy, |s|;
    }

    /** memcpy of the whole blob to position `at` of another buffer. */
    method CopyTo(target: array<char>, at: nat)
      requires Valid() && at + length <= target.Length && (buffer != null ==> target != buffer)
      modifies target
      ensures target[at..at + length] == Contents()
      ensures target[..at] == old(target[..at]) && target[at + length..] == old(target[at + length..])
    {
      for i := 0 to length
        invariant target[..at] == old(target[..at]) && target[at + length..] == old(target[at + length..])
        invariant forall k :: 0 <= k < i ==> target[at + k] == buffer[k]
      {
        target[at + i] := buffer[i];
      }
    }

    /** This blob and then the others in order; without others this very blob. */
    method Concat(blobs: seq<Blob>, ghost parts: seq<string>) returns (r: Blob)
      requires Valid() && HoldAll(blobs, parts)
      ensures blobs == [] ==> r == this
      ensures blobs != [] ==> fresh(r)
      ensures r.Valid() && r.Contents() == Contents() + Glued(parts)
      ensures r.length == length + |Glued(parts)|
    {
      if |blobs| == 0 {
        return this;
      }
      var size := TotalLength(blobs, parts);
      size := length + size;
      var target := new char[size + 1];
      target[size] := '\0';
      this.CopyTo(target, 0);
      CopyAll(blobs, target, length, Contents(), parts);
      r := new Blob.WithReference(target, size);
    }
  }

  ghost predicate Holds(blob: Blob, part: string)
    reads blob.buffer
  {
    blob.Valid() && blob.Contents() == part
  }

  /** The contents of some blobs. */
  ghost predicate HoldAll(blobs: seq<Blob>, parts: seq<string>)
    reads set b | b in blobs && b.buffer != null :: b.buffer
  {
    |blobs| == |parts| && forall i :: 0 <= i < |blobs| ==> Holds(blobs[i], parts[i])
  }

  function Glued(parts: seq<string>): string {
    if parts == [] then "" else parts[0] + Glued(parts[1..])
  }

  lemma {:induction false} GluedSnoc(parts: seq<string>, part: string, more: seq<string>)
    requires more == parts + [part]
    ensures Glued(more) == Glued(parts) + part
    decreases |parts|
  {
    if parts != [] {
      assert more[1..] == parts[1..] + [part];
      GluedSnoc(parts[1..], part, more[1..]);
    }
  }

  /** Gluing is joining with nothing in between. */
  lemma {:induction false} GluedIsJoin(parts: seq<string>)
    ensures Glued(parts) == Join(parts, "")
  {
    if |parts| > 0 {
      GluedIsJoin(parts[1..]);
    }
  }

  lemma GluedTake(parts: seq<string>, i: nat)
    requires i < |parts|
    ensures Glued(parts[..i + 1]) == Glued(parts[..i]) + parts[i]
  {
    GluedSnoc(parts[..i], parts[i], parts[..i + 1]);
  }

  lemma {:induction false} GluedPrefix(parts: seq<string>, i: nat)
    requires i <= |parts|
    ensures |Glued(parts[..i])| <= |Glued(parts)|
    decreases |parts| - i
  {
    if i == |parts| {
      assert parts[..i] == parts;
    } else {
      GluedTake(parts, i);
      GluedPrefix(parts, i + 1);
    }
  }

  method TotalLength(blobs: seq<Blob>, ghost parts: seq<string>) returns (size: nat)
    requires HoldAll(blobs, parts)
    ensures size == |Glued(parts)|
  {
    size := 0;
    for i := 0 to |blobs|
      invariant size == |Glued(parts[..i])|
    {
      GluedTake(parts, i);
      assert Holds(blobs[i], parts[i]);
      size := size + blobs[i].length;
    }
    assert parts[..|blobs|] == parts;
  }

  method CopyNext(blob: Blob, target: array<char>, current: nat, ghost done: string)
    requires blob.Valid() && blob.buffer != target && current + blob.length < target.Length && target[..current] == done
    modifies target
    ensures target[..current + blob.length] == done + blob.Contents()
    ensures target[target.Length - 1] == old(target[target.Length - 1])
  {
    ghost var last, tail := target.Length - 1, target[current + blob.length..];
    blob.CopyTo(target, current);
    assert target[last] == tail[last - current - blob.length];
  }

  /** The loop that copies the blobs one behind the other. */
  method CopyAll(blobs: seq<Blob>, target: array<char>, start: nat, ghost front: string, ghost parts: seq<string>)
    requires HoldAll(blobs, parts) && forall i :: 0 <= i < |blobs| ==> blobs[i].buffer != target
    requires target.Length == start + |Glued(parts)| + 1
    requires target[..start] == front
    modifies target
    ensures target[..target.Length - 1] == front + Glued(parts)
    ensures target[target.Length - 1] == old(target[target.Length - 1])
  {
    var current := start;
    ghost var last := target.Length - 1;
    for i := 0 to |blobs|
      invariant current == start + |Glued(parts[..i])| <= last
      invariant target[..current] == front + Glued(parts[..i])
      invariant target[last] == old(target[last])
      invariant HoldAll(blobs, parts)
    {
      GluedTake(parts, i);
      GluedPrefix(parts, i + 1);
      ghost var done := front + Glued(parts[..i]);
      assert done + parts[i] == front + Glued(parts[..i + 1]);
      assert Holds(blobs[i], parts[i]);
      if blobs[i].length > 0 {
        CopyNext(blobs[i], target, current, done);
        current := current + blobs[i].length;
      }
    }
    assert parts[..|blobs|] == parts;
  }

  datatype Argument = BlobArgument(blob: Blob) | StringArgument(text: string) | OtherArgument

  /** What concat adds to this blob: blobs and strings count, anything else is skipped. */
  function Added(args: seq<Argument>): seq<string>
    requires forall a :: a in args && a.BlobArgument? ==> a.blob.Valid()
    reads set a | a in args && a.BlobArgument? && a.blob.buffer != null :: a.blob.buffer
  {
    if args == [] then []
    else
      Added(args[..|args| - 1]) +
      match args[|args| - 1]
      case BlobArgument(blob) => [blob.Contents()]
      case StringArgument(text) => [text]
      case OtherArgument => []
  }

  /** Arguments add in order: a blob its contents, a string itself, anything else nothing. */
  lemma {:induction false} AddedConcat(a: seq<Argument>, b: seq<Argument>)
    requires forall x :: x in a + b && x.BlobArgument? ==> x.blob.Valid()
    ensures (forall x :: x in a && x.BlobArgument? ==> x.blob.Valid()) && (forall x :: x in b && x.BlobArgument? ==> x.blob.Valid())
    ensures Added(a + b) == Added(a) + Added(b)
    decreases |b|
  {
    assert forall x :: x in a || x in b ==> x in a + b;
    if b == [] {
      assert a + b == a;
    } else {
      var n := |b| - 1;
      assert (a + b)[..|a + b| - 1] == a + b[..n];
      assert forall x :: x in a + b[..n] ==> x in a + b;
      AddedConcat(a, b[..n]);
    }
  }

  lemma AddedOne(a: Argument)
    requires a.BlobArgument? ==> a.blob.Valid()
    ensures Added([a]) == match a case BlobArgument(blob) => [blob.Contents()] case StringArgument(text) => [text] case OtherArgument => []
  {
    assert [a][..0] == [];
  }

  /** The concat method of the bindings. */
  method ConcatArguments(self: Blob, args: seq<Argument>) returns (r: Blob)
    requires self.Valid() && forall a :: a in args && a.BlobArgument? ==> a.blob.Valid()
    ensures r.Valid() && r.Contents() == self.Contents() + Glued(Added(args))
  {
    var blobs: seq<Blob> := [];
    for i := 0 to |args|
      invariant HoldAll(blobs, Added(args[..i]))
    {
      assert args[..i + 1][..i] == args[..i];
      if args[i].BlobArgument? {
        blobs := blobs + [args[i].blob];
      } else if args[i].StringArgument? {
        var blob := new Blob.WithCopy(args[i].text);
        blobs := blobs + [blob];
      }
    }
    assert args[..|args|] == args;
    r := self.Concat(blobs, Added(args));
  }

  method GlobBlobs(blobs: seq<Blob>, ghost parts: seq<string>) returns (r: Blob)
    requires HoldAll(blobs, parts)
    ensures r.Valid() && r.Contents() == Glued(parts) && fresh(r)
  {
    var blob := new Blob.WithCopy("");
    r := blob.Concat(blobs, parts);
  }
}
