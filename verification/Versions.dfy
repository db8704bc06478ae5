/** BootUtils::CompareVersions, by sign: the order that ranks installed components. */
module Versions {
  import opened Strings

  /** The sign of std::string::compare. */
  function CompareText(a: string, b: string): (r: int)
    ensures -1 <= r <= 1
  {
    if a == "" && b == "" then 0
    else if a == "" then -1
    else if b == "" then 1
    else if a[0] < b[0] then -1
    else if a[0] > b[0] then 1
    else CompareText(a[1..], b[1..])
  }

  /** Components left to right; a proper prefix comes first. */
  function CompareParts(a: seq<string>, b: seq<string>): (r: int)
    ensures -1 <= r <= 1
  {
    if a == [] && b == [] then 0
    else if a == [] then -1
    else if b == [] then 1
    else
      var first := CompareText(a[0], b[0]);
      if first != 0 then first else CompareParts(a[1..], b[1..])
  }

  function Parts(version: string): seq<string> { Tokens(version, ".") }

  /** The version order: the empty string is least, everything else goes by its dot-separated parts. */
  function VersionOrder(one: string, two: string): (r: int)
    ensures -1 <= r <= 1
  {
    if one == "" && two == "" then 0
    else if one == "" then -1
    else if two == "" then 1
    else CompareParts(Parts(one), Parts(two))
  }

  lemma {:induction false} SkipEqualParts(a: seq<string>, b: seq<string>, i: nat)
    requires i <= |a| && i <= |b| && forall k :: 0 <= k < i ==> CompareText(a[k], b[k]) == 0
    ensures CompareParts(a, b) == CompareParts(a[i..], b[i..])
    decreases i
  {
    if i > 0 {
      forall k | 0 <= k < i - 1
        ensures CompareText(a[1..][k], b[1..][k]) == 0
      {
        assert a[1..][k] == a[k + 1] && b[1..][k] == b[k + 1];
      }
      SkipEqualParts(a[1..], b[1..], i - 1);
      assert a[1..][i - 1..] == a[i..] && b[1..][i - 1..] == b[i..];
    } else {
      assert a[0..] == a && b[0..] == b;
    }
  }

  lemma FirstDifference(a: seq<string>, b: seq<string>, i: nat)
    requires i < |a| && i < |b| && forall k :: 0 <= k < i ==> CompareText(a[k], b[k]) == 0
    requires CompareText(a[i], b[i]) != 0
    ensures CompareParts(a, b) == CompareText(a[i], b[i])
  {
    SkipEqualParts(a, b, i);
    assert a[i..][0] == a[i] && b[i..][0] == b[i];
  }

  /** The loop of CompareVersions. */
  method ComparePartLists(listOne: seq<string>, listTwo: seq<string>) returns (r: int)
    ensures r == CompareParts(listOne, listTwo)
  {
    var min := |listOne|;
    if |listTwo| < |listOne| {
      min := |listTwo|;
    }
    for i := 0 to min
      invariant forall k :: 0 <= k < i ==> CompareText(listOne[k], listTwo[k]) == 0
    {
      var result := CompareText(listOne[i], listTwo[i]);
      if result != 0 {
        FirstDifference(listOne, listTwo, i);
        return result;
      }
    }
    SkipEqualParts(listOne, listTwo, min);
    return if |listOne| > |listTwo| then 1 else if |listTwo| > |listOne| then -1 else 0;
  }

  /** The negative results say which version is older. */
  method CompareVersions(one: string, two: string) returns (r: int)
    ensures r == VersionOrder(one, two)
    ensures r < 0 <==> Older(one, two)
    ensures r > 0 <==> Older(two, one)
  {
    OlderIsOrder(one, two);
    OlderIsOrder(two, one);
    VersionPreorder(one, two, one);
    if one == "" && two == "" { return 0; }
    if one == "" { return -1; }
    if two == "" { return 1; }
    var listOne := Tokenize(one, [], ".", false);
    var listTwo := Tokenize(two, [], ".", false);
    assert listOne == Parts(one) && listTwo == Parts(two);
    r := ComparePartLists(listOne, listTwo);
  }

  // ---------------------------------------------------------------- what the order means

  /** The texts agree up to position k, where the first has ended or has the smaller character. */
  ghost predicate TextAt(a: string, b: string, k: nat) {
    k <= |a| && k < |b| && a[..k] == b[..k] && (k == |a| || a[k] < b[k])
  }

  ghost predicate TextBefore(a: string, b: string) { exists k :: TextAt(a, b, k) }

  /** The parts agree up to position k, where the first list has ended or has the smaller text. */
  ghost predicate PartsAt(a: seq<string>, b: seq<string>, k: nat) {
    k <= |a| && k < |b| && a[..k] == b[..k] && (k == |a| || TextBefore(a[k], b[k]))
  }

  /** The older of two versions: the empty one, or the one whose dot-separated parts run out first or have the smaller text
      at the first difference.  Parts are compared as texts, not as numbers. */
  ghost predicate Older(one: string, two: string) {
    two != "" && (one == "" || exists k :: PartsAt(Tokens(one, "."), Tokens(two, "."), k))
  }

  lemma {:induction false} TextCompared(a: string, b: string)
    ensures CompareText(a, b) < 0 <==> TextBefore(a, b)
  {
    if a == "" || b == "" || a[0] != b[0] {
      assert TextAt(a, b, 0) <==> CompareText(a, b) < 0;
      assert forall k: nat :: 0 < k <= |a| && k < |b| ==> a[..k][0] == a[0] && b[..k][0] == b[0];
    } else {
      TextCompared(a[1..], b[1..]);
      assert !TextAt(a, b, 0);
      forall k: nat | k < |b|
        ensures k > 0 ==> (TextAt(a, b, k) <==> TextAt(a[1..], b[1..], k - 1))
        ensures k + 1 < |b| ==> (TextAt(a, b, k + 1) <==> TextAt(a[1..], b[1..], k))
      {
        if k > 0 { TextAtTail(a, b, k); }
        if k + 1 < |b| { TextAtTail(a, b, k + 1); }
      }
      if TextBefore(a, b) {
        var k: nat :| TextAt(a, b, k);
        assert TextAt(a[1..], b[1..], k - 1);
      }
      if TextBefore(a[1..], b[1..]) {
        var k: nat :| TextAt(a[1..], b[1..], k);
        assert TextAt(a, b, k + 1);
      }
    }
  }

  lemma TextAtTail(a: string, b: string, k: nat)
    requires a != "" && b != "" && a[0] == b[0] && 0 < k
    ensures TextAt(a, b, k) <==> TextAt(a[1..], b[1..], k - 1)
  {
    if k <= |a| && k < |b| {
      assert a[..k] == [a[0]] + a[1..][..k - 1] && b[..k] == [b[0]] + b[1..][..k - 1];
      assert a[..k] == b[..k] ==> a[..k][1..] == b[..k][1..];
    }
  }

  lemma PartsAtTail(a: seq<string>, b: seq<string>, k: nat)
    requires a != [] && b != [] && a[0] == b[0] && 0 < k
    ensures PartsAt(a, b, k) <==> PartsAt(a[1..], b[1..], k - 1)
  {
    if k <= |a| && k < |b| {
      assert a[..k] == [a[0]] + a[1..][..k - 1] && b[..k] == [b[0]] + b[1..][..k - 1];
      assert a[..k] == b[..k] ==> a[..k][1..] == b[..k][1..];
    }
  }

  lemma {:induction false} PartsCompared(a: seq<string>, b: seq<string>)
    ensures CompareParts(a, b) < 0 <==> exists k :: PartsAt(a, b, k)
  {
    if a == [] || b == [] || a[0] != b[0] {
      if a != [] && b != [] {
        TextOrder(a[0], b[0], "");
        TextCompared(a[0], b[0]);
      }
      assert PartsAt(a, b, 0) <==> CompareParts(a, b) < 0;
      assert forall k: nat :: 0 < k <= |a| && k < |b| ==> a[..k][0] == a[0] && b[..k][0] == b[0];
    } else {
      TextOrder(a[0], b[0], "");
      TextCompared(a[0], b[0]);
      PartsCompared(a[1..], b[1..]);
      assert !PartsAt(a, b, 0);
      if k: nat :| PartsAt(a, b, k) {
        PartsAtTail(a, b, k);
        assert PartsAt(a[1..], b[1..], k - 1);
      }
      if k: nat :| PartsAt(a[1..], b[1..], k) {
        PartsAtTail(a, b, k + 1);
        assert PartsAt(a, b, k + 1);
      }
    }
  }

  lemma OlderIsOrder(one: string, two: string)
    ensures VersionOrder(one, two) < 0 <==> Older(one, two)
  {
    PartsCompared(Parts(one), Parts(two));
  }

  /** Behind an equal first part the second one decides, as a text. */
  lemma SecondPartDecides(a: string, b: string, c: string)
    requires a != "" && b != "" && c != "" && Free(a, ".") && Free(b, ".") && Free(c, ".") && TextBefore(b, c)
    ensures Older(a + "." + b, a + "." + c)
  {
    TwoParts(a, b);
    TwoParts(a, c);
    assert PartsAt([a, b], [a, c], 1);
  }

  /** So 1.10 is older than 1.9. */
  lemma TenBeforeNine()
    ensures Older("1.10", "1.9")
  {
    assert TextAt("10", "9", 0);
    SecondPartDecides("1", "10", "9");
    assert "1" + "." + "10" == "1.10" && "1" + "." + "9" == "1.9";
  }

  lemma TwoParts(a: string, b: string)
    requires a != "" && b != "" && Free(a, ".") && Free(b, ".")
    ensures Tokens(a + "." + b, ".") == [a, b]
  {
    assert Join([a, b], ".") == a + "." + b by {
      assert [a, b][1..] == [b];
    }
    TokensOfJoin([a, b], ".", ".");
  }

  // ---------------------------------------------------------------- a total preorder

  lemma {:induction false} TextOrder(a: string, b: string, c: string)
    ensures CompareText(a, b) == -CompareText(b, a)
    ensures CompareText(a, b) == 0 <==> a == b
    ensures CompareText(a, b) <= 0 && CompareText(b, c) <= 0 ==> CompareText(a, c) <= 0
    decreases |a|
  {
    if a != "" && b != "" {
      TextOrder(a[1..], b[1..], if c == "" then "" else c[1..]);
      if a[0] == b[0] && a[1..] == b[1..] {
        assert a == [a[0]] + a[1..] && b == [b[0]] + b[1..];
      }
    }
  }

  lemma {:induction false} PartsOrder(a: seq<string>, b: seq<string>, c: seq<string>)
    ensures CompareParts(a, b) == -CompareParts(b, a)
    ensures CompareParts(a, b) == 0 <==> a == b
    ensures CompareParts(a, b) <= 0 && CompareParts(b, c) <= 0 ==> CompareParts(a, c) <= 0
    decreases |a|
  {
    if a != [] && b != [] {
      PartsOrder(a[1..], b[1..], if c == [] then [] else c[1..]);
      TextOrder(a[0], b[0], if c == [] then "" else c[0]);
      if c != [] {
        TextOrder(b[0], c[0], a[0]);
        TextOrder(c[0], a[0], b[0]);
      }
      if a[0] == b[0] && a[1..] == b[1..] {
        assert a == [a[0]] + a[1..] && b == [b[0]] + b[1..];
      }
    }
  }

  /** By sign, CompareVersions is reflexive, antisymmetric and transitive on all strings. */
  lemma VersionPreorder(a: string, b: string, c: string)
    ensures VersionOrder(a, a) == 0
    ensures VersionOrder(a, b) == -VersionOrder(b, a)
    ensures VersionOrder(a, b) <= 0 && VersionOrder(b, c) <= 0 ==> VersionOrder(a, c) <= 0
  {
    PartsOrder(Parts(a), Parts(b), Parts(c));
    PartsOrder(Parts(a), Parts(a), Parts(a));
  }

  /** Two versions rank equal exactly if both or neither is empty and their parts are the same. */
  lemma SameRank(a: string, b: string)
    ensures VersionOrder(a, b) == 0 <==> (a == "" <==> b == "") && Parts(a) == Parts(b)
  {
    PartsOrder(Parts(a), Parts(b), []);
  }

  /** WeakCompareComponents, on versions: one is placed before two. */
  predicate Precedes(one: string, two: string) { VersionOrder(one, two) > 0 }

  /** The requirements std::stable_sort puts on its comparator: a strict weak order. */
  lemma StrictWeakOrder(a: string, b: string, c: string)
    ensures !Precedes(a, a)
    ensures Precedes(a, b) && Precedes(b, c) ==> Precedes(a, c)
    ensures !Precedes(a, b) && !Precedes(b, a) && !Precedes(b, c) && !Precedes(c, b) ==>
      !Precedes(a, c) && !Precedes(c, a)
  {
    VersionPreorder(a, b, c);
    VersionPreorder(c, b, a);
    VersionPreorder(a, c, b);
    VersionPreorder(b, a, c);
    VersionPreorder(c, a, b);
    VersionPreorder(b, c, a);
  }

  /** What is newer than b is newer than everything not newer than b. */
  lemma NewerChain(a: string, b: string, c: string)
    requires Precedes(a, b) && !Precedes(c, b)
    ensures Precedes(a, c) && !Precedes(c, a)
  {
    VersionPreorder(a, c, b);
    VersionPreorder(c, a, b);
    VersionPreorder(b, a, c);
  }
}
