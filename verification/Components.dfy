/** Finding the components an application depends on. */
module Components {
  import opened Wrappers
  import opened Versions

  datatype ComponentType = MODULE | RUNTIME | SDK | MOBILESDK | APP_UPDATE

  datatype Component = Component(kind: ComponentType, name: string, version: string, path: string, bundled: bool)

  datatype Requirement = EQ | GT | GTE | LT | LTE

  datatype Dependency = Dependency(kind: ComponentType, requirement: Requirement, name: string, version: string)

  // ---------------------------------------------------------------- installed components

  predicate SamePlace(a: Component, b: Component) { a.kind == b.kind && a.path == b.path }

  predicate Known(components: seq<Component>, c: Component) {
    exists e :: e in components && SamePlace(e, c)
  }

  method AddToComponentVector(components: seq<Component>, c: Component) returns (r: seq<Component>)
    ensures (exists e :: e in components && e.kind == c.kind && e.path == c.path) ==> r == components
    ensures (forall e :: e in components ==> e.kind != c.kind || e.path != c.path) ==> r == components + [c]
    ensures r == if Known(components, c) then components else components + [c]
  {
    for i := 0 to |components|
      invariant forall k :: 0 <= k < i ==> !SamePlace(components[k], c)
    {
      if SamePlace(components[i], c) {
        assert components[i] in components;
        return components;
      }
    }
    return components + [c];
  }

  /** What is found on the search paths, in search order, without repetitions. */
  function Collected(found: seq<Component>): seq<Component> {
    if found == [] then []
    else
      var earlier, c := Collected(found[..|found| - 1]), found[|found| - 1];
      if Known(earlier, c) then earlier else earlier + [c]
  }

  /** Each component found is there, or one found before it with the same type and path. */
  lemma {:induction false} CollectedNext(found: seq<Component>, c: Component)
    ensures Collected([]) == []
    ensures (exists e :: e in Collected(found) && e.kind == c.kind && e.path == c.path) ==> Collected(found + [c]) == Collected(found)
    ensures (forall e :: e in Collected(found) ==> e.kind != c.kind || e.path != c.path) ==>
      Collected(found + [c]) == Collected(found) + [c]
  {
    assert (found + [c])[..|found|] == found;
    if e :| e in Collected(found) && e.kind == c.kind && e.path == c.path {
      assert SamePlace(e, c);
    }
  }

  /** Insertion behind everything that is not older: the step of a stable sort, newest version first. */
  function Insert(c: Component, sorted: seq<Component>): seq<Component> {
    if sorted == [] then [c]
    else if Precedes(c.version, sorted[0].version) then [c] + sorted
    else [sorted[0]] + Insert(c, sorted[1..])
  }

  function StableSort(components: seq<Component>): seq<Component> {
    if components == [] then []
    else Insert(components[|components| - 1], StableSort(components[..|components| - 1]))
  }

  ghost predicate Sorted(s: seq<Component>) {
    forall i, k :: 0 <= i < k < |s| ==> !Precedes(s[k].version, s[i].version)
  }

  /** No component is older than one behind it. */
  ghost predicate NewestFirst(s: seq<Component>) {
    forall i, k :: 0 <= i < k < |s| ==> !Older(s[i].version, s[k].version)
  }

  lemma SortedIsNewestFirst(s: seq<Component>)
    ensures Sorted(s) <==> NewestFirst(s)
  {
    forall i, k | 0 <= i < k < |s|
      ensures Precedes(s[k].version, s[i].version) <==> Older(s[i].version, s[k].version)
    {
      PrecedesIsNewer(s[k].version, s[i].version);
    }
  }

  lemma PrecedesIsNewer(one: string, two: string)
    ensures Precedes(one, two) <==> Older(two, one)
  {
    VersionPreorder(one, two, one);
    OlderIsOrder(two, one);
  }

  /** The components of one rank, in order. */
  function OfRank(s: seq<Component>, version: string): seq<Component> {
    if s == [] then []
    else (if VersionOrder(s[0].version, version) == 0 then [s[0]] else []) + OfRank(s[1..], version)
  }

  lemma {:induction false} OfRankSnoc(s: seq<Component>, c: Component, version: string)
    ensures OfRank(s + [c], version) == OfRank(s, version) + OfRank([c], version)
  {
    if s == [] {
      assert s + [c] == [c];
    } else {
      assert (s + [c])[1..] == s[1..] + [c];
      OfRankSnoc(s[1..], c, version);
    }
  }

  /** Which components are of one rank: those neither older nor newer. */
  lemma {:induction false} OfRankNext(s: seq<Component>, c: Component, version: string)
    ensures OfRank([], version) == []
    ensures OfRank(s + [c], version) ==
      OfRank(s, version) + if !Older(c.version, version) && !Older(version, c.version) then [c] else []
  {
    OfRankSnoc(s, c, version);
    assert [c][1..] == [];
    OlderIsOrder(c.version, version);
    OlderIsOrder(version, c.version);
    VersionPreorder(c.version, version, version);
  }

  lemma {:induction false} OfRankNone(s: seq<Component>, version: string)
    requires forall e :: e in s ==> VersionOrder(e.version, version) != 0
    ensures OfRank(s, version) == []
  {
    if s != [] {
      OfRankNone(s[1..], version);
    }
  }

  /** A component newer than the head of a sorted list is newer than all of it. */
  lemma NewerThanAll(c: Component, s: seq<Component>)
    requires Sorted(s) && s != [] && Precedes(c.version, s[0].version)
    ensures forall e :: e in s ==> Precedes(c.version, e.version)
  {
    forall e | e in s
      ensures Precedes(c.version, e.version)
    {
      VersionPreorder(s[0].version, s[0].version, s[0].version);
      NewerChain(c.version, s[0].version, e.version);
    }
  }

  lemma {:induction false} InsertPermutes(c: Component, s: seq<Component>)
    ensures multiset(Insert(c, s)) == multiset(s) + multiset{c}
    ensures forall e :: e in Insert(c, s) ==> e == c || e in s
    decreases |s|
  {
    if s != [] {
      assert s == [s[0]] + s[1..];
      InsertPermutes(c, s[1..]);
    }
  }

  lemma {:induction false} InsertSorts(c: Component, s: seq<Component>)
    requires Sorted(s)
    ensures Sorted(Insert(c, s))
    decreases |s|
  {
    if s != [] {
      if Precedes(c.version, s[0].version) {
        NewerThanAll(c, s);
        VersionPreorder(c.version, s[0].version, c.version);
        forall e | e in s
          ensures !Precedes(e.version, c.version)
        {
          VersionPreorder(c.version, e.version, c.version);
        }
      } else {
        InsertSorts(c, s[1..]);
        var r := Insert(c, s[1..]);
        InsertPermutes(c, s[1..]);
        forall k | 0 <= k < |r|
          ensures !Precedes(r[k].version, s[0].version)
        {
          assert r[k] == c || r[k] in s[1..];
        }
      }
    }
  }

  lemma OfRankCons(c: Component, s: seq<Component>, all: seq<Component>, version: string)
    requires all == [c] + s
    ensures OfRank(all, version) == OfRank([c], version) + OfRank(s, version)
  {
    assert all[1..] == s && [c][1..] == [];
  }

  /** A component that goes to the front has a rank of its own. */
  lemma FrontRank(c: Component, s: seq<Component>, version: string)
    requires Sorted(s) && s != [] && Precedes(c.version, s[0].version)
    ensures OfRank([c], version) == [] || OfRank(s, version) == []
  {
    if VersionOrder(c.version, version) == 0 {
      NewerThanAll(c, s);
      forall e | e in s
        ensures VersionOrder(e.version, version) != 0
      {
        VersionPreorder(c.version, version, e.version);
        VersionPreorder(version, e.version, c.version);
      }
      OfRankNone(s, version);
    }
  }

  lemma {:induction false} InsertStable(c: Component, s: seq<Component>, version: string)
    requires Sorted(s)
    ensures OfRank(Insert(c, s), version) == OfRank(s, version) + OfRank([c], version)
    decreases |s|
  {
    if s != [] {
      if Precedes(c.version, s[0].version) {
        OfRankCons(c, s, Insert(c, s), version);
        FrontRank(c, s, version);
      } else {
        InsertStable(c, s[1..], version);
        OfRankCons(s[0], Insert(c, s[1..]), Insert(c, s), version);
        OfRankCons(s[0], s[1..], s, version);
      }
    }
  }

  /** StableSort is the stable sort: sorted, a permutation, and components of equal rank keep their order. */
  lemma {:induction false} StableSortSorts(s: seq<Component>)
    ensures Sorted(StableSort(s)) && multiset(StableSort(s)) == multiset(s)
  {
    if s != [] {
      var n := |s| - 1;
      StableSortSorts(s[..n]);
      InsertSorts(s[n], StableSort(s[..n]));
      InsertPermutes(s[n], StableSort(s[..n]));
      assert s == s[..n] + [s[n]];
    }
  }

  /** The newest version first. */
  lemma StableSortNewestFirst(s: seq<Component>)
    ensures NewestFirst(StableSort(s))
  {
    StableSortSorts(s);
    SortedIsNewestFirst(StableSort(s));
  }

  lemma {:induction false} StableSortStable(s: seq<Component>, version: string)
    ensures OfRank(StableSort(s), version) == OfRank(s, version)
  {
    if s != [] {
      var n := |s| - 1;
      StableSortSorts(s[..n]);
      StableSortStable(s[..n], version);
      InsertStable(s[n], StableSort(s[..n]), version);
      OfRankSnoc(s[..n], s[n], version);
      assert s == s[..n] + [s[n]];
    }
  }

  /** GetInstalledComponents: collect, then sort. */
  method GetInstalledComponents(found: seq<Component>) returns (r: seq<Component>)
    ensures r == StableSort(Collected(found)) && NewestFirst(r)
  {
    r := [];
    for i := 0 to |found|
      invariant r == Collected(found[..i])
    {
      assert found[..i + 1][..i] == found[..i];
      r := AddToComponentVector(r, found[i]);
    }
    assert found[..|found|] == found;
    r := StableSort(r);
    StableSortNewestFirst(Collected(found));
  }

  // ---------------------------------------------------------------- resolving one dependency

  predicate Candidate(d: Dependency, c: Component) { d.kind == c.kind && d.name == c.name }

  /** The version requirement as the code checks it: nothing satisfies LTE. */
  predicate Meets(d: Dependency, c: Component) {
    var compare := VersionOrder(c.version, d.version);
    || (d.requirement == EQ && compare == 0)
    || (d.requirement == GTE && compare >= 0)
    || (d.requirement == GT && compare > 0)
    || (d.requirement == LT && compare < 0)
  }

  predicate Acceptable(d: Dependency, c: Component) { Candidate(d, c) && (c.bundled || Meets(d, c)) }

  /** The same in terms of which version is older; a requirement <= is met by nothing. */
  ghost predicate Suits(d: Dependency, c: Component) {
    && d.kind == c.kind && d.name == c.name
    && (c.bundled ||
        match d.requirement
        case EQ => !Older(c.version, d.version) && !Older(d.version, c.version)
        case GT => Older(d.version, c.version)
        case GTE => !Older(c.version, d.version)
        case LT => Older(c.version, d.version)
        case LTE => false)
  }

  lemma SuitsIsAcceptable(d: Dependency, c: Component)
    ensures Acceptable(d, c) <==> Suits(d, c)
  {
    OlderIsOrder(c.version, d.version);
    OlderIsOrder(d.version, c.version);
    VersionPreorder(c.version, d.version, d.version);
  }

  /** Component i is the first that suits. */
  ghost predicate FirstToSuit(d: Dependency, components: seq<Component>, i: nat) {
    i < |components| && Suits(d, components[i]) && forall k :: 0 <= k < i ==> !Suits(d, components[k])
  }

  function FirstAcceptable(d: Dependency, components: seq<Component>): Option<Component> {
    if components == [] then None
    else if Acceptable(d, components[0]) then Some(components[0])
    else FirstAcceptable(d, components[1..])
  }

  lemma {:induction false} FirstAcceptableAt(d: Dependency, s: seq<Component>, i: nat)
    requires i <= |s| && forall k :: 0 <= k < i ==> !Acceptable(d, s[k])
    ensures FirstAcceptable(d, s) == FirstAcceptable(d, s[i..])
    decreases i
  {
    if i > 0 {
      assert s[1..][i - 1..] == s[i..];
      forall k | 0 <= k < i - 1
        ensures !Acceptable(d, s[1..][k])
      {
        assert s[1..][k] == s[k + 1];
      }
      FirstAcceptableAt(d, s[1..], i - 1);
    } else {
      assert s[0..] == s;
    }
  }

  method ResolveDependency(d: Dependency, components: seq<Component>) returns (r: Option<Component>)
    ensures r == FirstAcceptable(d, components)
    ensures r.None? <==> forall c :: c in components ==> !Suits(d, c)
    ensures r.Some? ==> exists i: nat :: FirstToSuit(d, components, i) && components[i] == r.value
  {
    forall c
      ensures Acceptable(d, c) <==> Suits(d, c)
    {
      SuitsIsAcceptable(d, c);
    }
    for i := 0 to |components|
      invariant forall k :: 0 <= k < i ==> !Acceptable(d, components[k])
    {
      var comp := components[i];
      if d.kind != comp.kind || d.name != comp.name {
        continue;
      }
      var compare := CompareVersions(comp.version, d.version);
      if comp.bundled
        || (d.requirement == EQ && compare == 0)
        || (d.requirement == GTE && compare >= 0)
        || (d.requirement == GT && compare > 0)
        || (d.requirement == LT && compare < 0)
      {
        FirstAcceptableAt(d, components, i);
        assert FirstToSuit(d, components, i) && comp in components;
        return Some(comp);
      }
    }
    FirstAcceptableAt(d, components, |components|);
    return None;
  }

  /** Component i is the best answer from an unsorted list: nothing acceptable is newer, and nothing
      acceptable that is as new was found earlier. */
  ghost predicate Best(d: Dependency, s: seq<Component>, i: nat) {
    && i < |s| && Acceptable(d, s[i])
    && forall k :: 0 <= k < |s| && Acceptable(d, s[k]) ==>
         !Precedes(s[k].version, s[i].version) && (k < i ==> Precedes(s[i].version, s[k].version))
  }

  /** Inserting into a sorted list changes the first match only if the newcomer is acceptable and newer. */
  lemma {:induction false} FirstAfterInsert(d: Dependency, c: Component, s: seq<Component>)
    requires Sorted(s)
    ensures var first := FirstAcceptable(d, s);
      FirstAcceptable(d, Insert(c, s)) ==
        if Acceptable(d, c) && (first.None? || Precedes(c.version, first.value.version)) then Some(c) else first
    ensures FirstAcceptable(d, s).Some? ==> FirstAcceptable(d, s).value in s
    decreases |s|
  {
    if s != [] {
      FirstAfterInsert(d, c, s[1..]);
      if Precedes(c.version, s[0].version) {
        NewerThanAll(c, s);
        assert ([c] + s)[1..] == s;
      } else {
        assert ([s[0]] + Insert(c, s[1..]))[1..] == Insert(c, s[1..]);
      }
    }
  }

  /** Best extends to a list with one more component: the newcomer wins only if it is newer. */
  lemma BestSnoc(d: Dependency, s: seq<Component>, c: Component, i: nat)
    requires Best(d, s, i)
    ensures Best(d, s + [c], if Acceptable(d, c) && Precedes(c.version, s[i].version) then |s| else i)
  {
    if Acceptable(d, c) && Precedes(c.version, s[i].version) {
      VersionPreorder(c.version, c.version, c.version);
      forall k | 0 <= k < |s| && Acceptable(d, s[k])
        ensures Precedes(c.version, s[k].version) && !Precedes(s[k].version, c.version)
      {
        NewerChain(c.version, s[i].version, s[k].version);
      }
    }
  }

  /** The first match of the sorted list is the best match of the unsorted one. */
  lemma {:induction false} FirstOfSortedIsBest(d: Dependency, s: seq<Component>)
    returns (i: nat)
    ensures FirstAcceptable(d, StableSort(s)).None? ==> forall c :: c in s ==> !Acceptable(d, c)
    ensures FirstAcceptable(d, StableSort(s)).Some? ==> Best(d, s, i) && FirstAcceptable(d, StableSort(s)) == Some(s[i])
  {
    i := 0;
    if s != [] {
      var n := |s| - 1;
      var rest, c := s[..n], s[n];
      assert s == rest + [c];
      var earlier := FirstOfSortedIsBest(d, rest);
      StableSortSorts(rest);
      FirstAfterInsert(d, c, StableSort(rest));
      if FirstAcceptable(d, StableSort(rest)).Some? {
        BestSnoc(d, rest, c, earlier);
        i := if Acceptable(d, c) && Precedes(c.version, rest[earlier].version) then n else earlier;
      } else {
        VersionPreorder(c.version, c.version, c.version);
        i := n;
      }
    }
  }

  // ---------------------------------------------------------------- the search as a whole

  /** The components of an application: its own, in scan order, then the installed ones. */
  function Available(bundled: seq<Component>, found: seq<Component>): seq<Component> {
    bundled + StableSort(Collected(found))
  }

  lemma {:induction false} FirstOfConcat(d: Dependency, a: seq<Component>, b: seq<Component>)
    ensures FirstAcceptable(d, a + b) == if FirstAcceptable(d, a).Some? then FirstAcceptable(d, a) else FirstAcceptable(d, b)
    ensures FirstAcceptable(d, a).None? <==> forall c :: c in a ==> !Acceptable(d, c)
  {
    if a == [] {
      assert a + b == b;
    } else {
      assert (a + b)[1..] == a[1..] + b;
      FirstOfConcat(d, a[1..], b);
    }
  }

  lemma {:induction false} CollectedOnlyFound(found: seq<Component>)
    ensures forall c :: c in Collected(found) ==> c in found
  {
    if found != [] {
      CollectedOnlyFound(found[..|found| - 1]);
    }
  }

  /** Paths are not listed twice: no two collected components have the same type and path. */
  lemma {:induction false} CollectedDistinct(found: seq<Component>)
    ensures forall i, k :: 0 <= i < k < |Collected(found)| ==> !SamePlace(Collected(found)[i], Collected(found)[k])
  {
    if found != [] {
      CollectedDistinct(found[..|found| - 1]);
    }
  }

  /** A bundled component of the right type and name always wins, whatever its version: the first one. */
  lemma {:induction false} BundledWins(d: Dependency, bundled: seq<Component>, rest: seq<Component>) returns (i: nat)
    requires forall c :: c in bundled ==> c.bundled
    requires exists c :: c in bundled && Candidate(d, c)
    ensures i < |bundled| && Candidate(d, bundled[i]) && forall k :: 0 <= k < i ==> !Candidate(d, bundled[k])
    ensures FirstAcceptable(d, bundled + rest) == Some(bundled[i])
  {
    i := 0;
    if !Candidate(d, bundled[0]) {
      assert (bundled + rest)[1..] == bundled[1..] + rest;
      i := BundledWins(d, bundled[1..], rest);
      i := i + 1;
    }
  }

  /** Without one, the newest installed component that meets the requirement is taken, the one found first
      among equals; and there is no result exactly if nothing installed meets the requirement. */
  lemma NewestInstalled(d: Dependency, bundled: seq<Component>, found: seq<Component>) returns (i: nat)
    requires (forall c :: c in bundled ==> !Candidate(d, c)) && (forall c :: c in found ==> !c.bundled)
    ensures var r := FirstAcceptable(d, Available(bundled, found)); var installed := Collected(found);
      && (r.None? <==> forall c :: c in installed ==> !(Candidate(d, c) && Meets(d, c)))
      && (r.Some? ==> i < |installed| && r == Some(installed[i]) && Meets(d, installed[i]) && Best(d, installed, i))
    ensures var r := FirstAcceptable(d, Available(bundled, found)); r.Some? ==> Newest(d, Collected(found), i)
  {
    var installed := Collected(found);
    CollectedOnlyFound(found);
    FirstOfConcat(d, bundled, StableSort(installed));
    i := FirstOfSortedIsBest(d, installed);
    if FirstAcceptable(d, StableSort(installed)).Some? {
      assert installed[i] in installed;
      BestIsNewest(d, installed, i);
    }
  }

  /** Component i suits, none that suits is newer, and those found before it that suit are older. */
  ghost predicate Newest(d: Dependency, s: seq<Component>, i: nat) {
    && i < |s| && Suits(d, s[i])
    && forall k :: 0 <= k < |s| && Suits(d, s[k]) ==>
         !Older(s[i].version, s[k].version) && (k < i ==> Older(s[k].version, s[i].version))
  }

  lemma BestIsNewest(d: Dependency, s: seq<Component>, i: nat)
    ensures Best(d, s, i) <==> Newest(d, s, i)
  {
    if i < |s| {
      SuitsIsAcceptable(d, s[i]);
      forall k | 0 <= k < |s|
        ensures Acceptable(d, s[k]) <==> Suits(d, s[k])
        ensures Precedes(s[k].version, s[i].version) <==> Older(s[i].version, s[k].version)
        ensures Precedes(s[i].version, s[k].version) <==> Older(s[k].version, s[i].version)
      {
        SuitsIsAcceptable(d, s[k]);
        PrecedesIsNewer(s[k].version, s[i].version);
        PrecedesIsNewer(s[i].version, s[k].version);
      }
    }
  }

  /** Of the installed components that have exactly the wanted version, by rank, the one found first is taken. */
  function FirstOfRank(kind: ComponentType, name: string, version: string, s: seq<Component>): Option<Component> {
    if s == [] then None
    else if s[0].kind == kind && s[0].name == name && VersionOrder(s[0].version, version) == 0 then Some(s[0])
    else FirstOfRank(kind, name, version, s[1..])
  }

  function FirstNamed(kind: ComponentType, name: string, s: seq<Component>): Option<Component> {
    if s == [] then None
    else if s[0].kind == kind && s[0].name == name then Some(s[0])
    else FirstNamed(kind, name, s[1..])
  }

  lemma {:induction false} FirstOfRankAt(kind: ComponentType, name: string, version: string, s: seq<Component>, i: nat)
    requires i < |s| && s[i].kind == kind && s[i].name == name && VersionOrder(s[i].version, version) == 0
    requires forall k :: 0 <= k < i ==> !(s[k].kind == kind && s[k].name == name && VersionOrder(s[k].version, version) == 0)
    ensures FirstOfRank(kind, name, version, s) == Some(s[i])
  {
    if i > 0 {
      FirstOfRankAt(kind, name, version, s[1..], i - 1);
    }
  }

  lemma {:induction false} FirstOfRankNone(kind: ComponentType, name: string, version: string, s: seq<Component>)
    requires forall c :: c in s ==> !(c.kind == kind && c.name == name && VersionOrder(c.version, version) == 0)
    ensures FirstOfRank(kind, name, version, s) == None
  {
    if s != [] {
      FirstOfRankNone(kind, name, version, s[1..]);
    }
  }

  /** All components that meet a requirement for one version have the same rank, so the best is the first. */
  lemma BestIsFirst(d: Dependency, s: seq<Component>, i: nat)
    requires d.requirement == EQ && (forall c :: c in s ==> !c.bundled) && Best(d, s, i)
    ensures FirstOfRank(d.kind, d.name, d.version, s) == Some(s[i])
  {
    forall k | 0 <= k < i
      ensures !(s[k].kind == d.kind && s[k].name == d.name && VersionOrder(s[k].version, d.version) == 0)
    {
      assert s[k] in s && s[i] in s;
      VersionPreorder(s[i].version, d.version, s[k].version);
      VersionPreorder(d.version, s[k].version, s[i].version);
    }
    assert s[i] in s;
    FirstOfRankAt(d.kind, d.name, d.version, s, i);
  }

  lemma {:induction false} BundledIsNamed(d: Dependency, bundled: seq<Component>)
    requires forall c :: c in bundled ==> c.bundled
    ensures FirstAcceptable(d, bundled) == FirstNamed(d.kind, d.name, bundled)
  {
    if bundled != [] {
      BundledIsNamed(d, bundled[1..]);
    }
  }

  /** What a requirement for exactly one version is answered with. */
  lemma ExactResolves(d: Dependency, bundled: seq<Component>, found: seq<Component>)
    requires d.requirement == EQ && (forall c :: c in bundled ==> c.bundled) && (forall c :: c in found ==> !c.bundled)
    ensures FirstAcceptable(d, Available(bundled, found)) ==
      match FirstNamed(d.kind, d.name, bundled)
      case Some(c) => Some(c)
      case None => FirstOfRank(d.kind, d.name, d.version, Collected(found))
  {
    var installed := Collected(found);
    CollectedOnlyFound(found);
    BundledIsNamed(d, bundled);
    FirstOfConcat(d, bundled, StableSort(installed));
    var i := FirstOfSortedIsBest(d, installed);
    if FirstAcceptable(d, StableSort(installed)).Some? {
      BestIsFirst(d, installed, i);
    } else {
      FirstOfRankNone(d.kind, d.name, d.version, installed);
    }
  }

  // ---------------------------------------------------------------- the missing <= case

  /** The requirement as the manifest states it, including <=. */
  predicate Stated(d: Dependency, c: Component) {
    Meets(d, c) || (d.requirement == LTE && VersionOrder(c.version, d.version) <= 0)
  }

  function FirstStated(d: Dependency, components: seq<Component>): Option<Component> {
    if components == [] then None
    else if Candidate(d, components[0]) && (components[0].bundled || Stated(d, components[0])) then Some(components[0])
    else FirstStated(d, components[1..])
  }

  /** Among installed components the search does what the manifest states, except that a <= requirement
      is never met: it goes wrong exactly if it is <= and some candidate would have met it. */
  lemma {:induction false} LteIgnored(d: Dependency, installed: seq<Component>)
    requires forall c :: c in installed ==> !c.bundled
    ensures FirstAcceptable(d, installed) == FirstStated(d, installed) <==>
      (d.requirement == LTE ==> forall c :: c in installed && Candidate(d, c) ==> VersionOrder(c.version, d.version) > 0)
    ensures d.requirement == LTE ==> FirstAcceptable(d, installed) == None
  {
    if installed != [] {
      LteIgnored(d, installed[1..]);
      assert installed == [installed[0]] + installed[1..];
    }
  }

  /** An installed component with the very version a <= requirement names is missed. */
  lemma LteMissed()
    ensures var d := Dependency(MODULE, LTE, "m", "1"); var c := Component(MODULE, "m", "1", "/m/1", false);
      FirstAcceptable(d, [c]) == None && FirstStated(d, [c]) == Some(c)
  {
    VersionPreorder("1", "1", "1");
  }

  // ---------------------------------------------------------------- all dependencies of an application

  /** The dependencies that cannot be resolved, in order. */
  function Unresolved(ds: seq<Dependency>, components: seq<Component>): seq<Dependency> {
    if ds == [] then []
    else Unresolved(ds[..|ds| - 1], components)
         + if FirstAcceptable(ds[|ds| - 1], components).None? then [ds[|ds| - 1]] else []
  }

  /** The components of the given types that the dependencies resolve to, in order. */
  function Resolved(ds: seq<Dependency>, components: seq<Component>, kinds: set<ComponentType>): seq<Component> {
    if ds == [] then []
    else
      var r := FirstAcceptable(ds[|ds| - 1], components);
      Resolved(ds[..|ds| - 1], components, kinds) + if r.Some? && r.value.kind in kinds then [r.value] else []
  }

  /** The dependencies are resolved one by one, and each gives one component, of its own type, or is unresolved. */
  lemma {:induction false} ResolvedConcat(a: seq<Dependency>, b: seq<Dependency>, components: seq<Component>, kinds: set<ComponentType>)
    ensures Resolved(a + b, components, kinds) == Resolved(a, components, kinds) + Resolved(b, components, kinds)
    ensures Unresolved(a + b, components) == Unresolved(a, components) + Unresolved(b, components)
    decreases |b|
  {
    if b == [] {
      assert a + b == a;
    } else {
      assert (a + b)[..|a + b| - 1] == a + b[..|b| - 1];
      ResolvedConcat(a, b[..|b| - 1], components, kinds);
    }
  }

  lemma ResolvedOne(d: Dependency, components: seq<Component>, kinds: set<ComponentType>) returns (i: nat)
    ensures (exists c :: c in components && Suits(d, c)) ==>
      && FirstToSuit(d, components, i) && Unresolved([d], components) == []
      && Resolved([d], components, kinds) == if d.kind in kinds then [components[i]] else []
    ensures (forall c :: c in components ==> !Suits(d, c)) ==>
      Unresolved([d], components) == [d] && Resolved([d], components, kinds) == []
  {
    i := FirstSuiting(d, components);
    OneDependency(d, components, kinds);
  }

  lemma OneDependency(d: Dependency, components: seq<Component>, kinds: set<ComponentType>)
    ensures var r := FirstAcceptable(d, components);
      && Unresolved([d], components) == (if r.None? then [d] else [])
      && Resolved([d], components, kinds) == if r.Some? && r.value.kind in kinds then [r.value] else []
  {
    assert [d][..0] == [];
  }

  lemma {:induction false} FirstSuiting(d: Dependency, components: seq<Component>) returns (i: nat)
    ensures if exists c :: c in components && Suits(d, c)
            then FirstToSuit(d, components, i) && FirstAcceptable(d, components) == Some(components[i])
            else FirstAcceptable(d, components).None?
  {
    i := 0;
    if components != [] {
      SuitsIsAcceptable(d, components[0]);
      var k := FirstSuiting(d, components[1..]);
      if !Suits(d, components[0]) {
        i := k + 1;
        assert forall j :: 0 < j < |components| ==> components[j] == components[1..][j - 1];
      }
      assert components[0] in components;
    }
  }

  /** What the first i dependencies resolve to. */
  ghost predicate ResolvedUpTo(ds: seq<Dependency>, i: nat, components: seq<Component>, unresolved: seq<Dependency>,
                               modules: seq<Component>, sdks: seq<Component>, runtimes: seq<Component>)
    requires i <= |ds|
  {
    && unresolved == Unresolved(ds[..i], components) && modules == Resolved(ds[..i], components, {MODULE})
    && sdks == Resolved(ds[..i], components, {SDK, MOBILESDK}) && runtimes == Resolved(ds[..i], components, {RUNTIME})
  }

  lemma ResolvedNext(ds: seq<Dependency>, i: nat, components: seq<Component>, unresolved: seq<Dependency>,
                     modules: seq<Component>, sdks: seq<Component>, runtimes: seq<Component>)
    requires i < |ds| && ResolvedUpTo(ds, i, components, unresolved, modules, sdks, runtimes)
    ensures match FirstAcceptable(ds[i], components)
      case None => ResolvedUpTo(ds, i + 1, components, unresolved + [ds[i]], modules, sdks, runtimes)
      case Some(c) => ResolvedUpTo(ds, i + 1, components, unresolved, modules + (if c.kind == MODULE then [c] else []),
        sdks + (if c.kind == SDK || c.kind == MOBILESDK then [c] else []), runtimes + if c.kind == RUNTIME then [c] else [])
  {
    assert ds[..i + 1][..i] == ds[..i];
  }

  /** Every dependency read from a manifest is accounted for exactly once... */
  lemma {:induction false} Accounted(ds: seq<Dependency>, components: seq<Component>)
    requires forall d :: d in ds ==> d.kind != APP_UPDATE
    ensures |ds| == |Unresolved(ds, components)| + |Resolved(ds, components, {MODULE})|
                    + |Resolved(ds, components, {SDK, MOBILESDK})| + |Resolved(ds, components, {RUNTIME})|
  {
    if ds != [] {
      var n := |ds| - 1;
      Accounted(ds[..n], components);
      ResolvedHasKind(ds[n], components);
    }
  }

  /** ... and is unresolved exactly if no component will do. */
  lemma {:induction false} UnresolvedHaveNone(ds: seq<Dependency>, components: seq<Component>, d: Dependency)
    ensures d in Unresolved(ds, components) <==> d in ds && FirstAcceptable(d, components).None?
  {
    if ds != [] {
      var n := |ds| - 1;
      UnresolvedHaveNone(ds[..n], components, d);
      assert ds == ds[..n] + [ds[n]];
    }
  }

  lemma {:induction false} ResolvedHasKind(d: Dependency, components: seq<Component>)
    ensures FirstAcceptable(d, components).Some? ==> FirstAcceptable(d, components).value.kind == d.kind
  {
    if components != [] {
      ResolvedHasKind(d, components[1..]);
    }
  }
}
