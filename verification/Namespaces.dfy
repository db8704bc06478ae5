/** Dotted names over a graph of bound objects: KObject::SetNS and KObject::GetNS. */
module Namespaces {
  import opened Wrappers
  import opened Strings

  /** Methods and lists are objects too, but only a value of type object counts as IsObject. */
  datatype Value =
    | Undefined
    | Scalar(id: int)
    | ObjectValue(o: BoundObject)
    | MethodValue(o: BoundObject)
    | ListValue(o: BoundObject)
  {
    predicate IsReference() { ObjectValue? || MethodValue? || ListValue? }
  }

  type Properties = map<string, Value>

  /** The properties of all objects at one moment. */
  type Heap = map<BoundObject, Properties>

  ghost function Read(h: Heap, o: BoundObject, name: string): Value {
    if o in h && name in h[o] then h[o][name] else Undefined
  }

  /** The object at the end of a path, stepping through anything that is an object. */
  ghost function Walk(h: Heap, root: BoundObject, path: seq<string>): Option<BoundObject> {
    if path == [] then Some(root)
    else
      match Walk(h, root, path[..|path| - 1])
      case None => None
      case Some(o) =>
        var v := Read(h, o, path[|path| - 1]);
        if v.IsReference() then Some(v.o) else None
  }

  /** The value at the end of a path, stepping through anything that is an object. */
  ghost function ValueAt(h: Heap, root: BoundObject, path: seq<string>): Value
    requires path != []
  {
    match Walk(h, root, path[..|path| - 1])
    case None => Undefined
    case Some(o) => Read(h, o, path[|path| - 1])
  }

  /** The same, stepping through proper objects only: what GetNS sees. */
  ghost function WalkObjects(h: Heap, root: BoundObject, path: seq<string>): Option<BoundObject> {
    if path == [] then Some(root)
    else
      match WalkObjects(h, root, path[..|path| - 1])
      case None => None
      case Some(o) =>
        var v := Read(h, o, path[|path| - 1]);
        if v.ObjectValue? then Some(v.o) else None
  }

  ghost function Resolve(h: Heap, root: BoundObject, path: seq<string>): Value
    requires path != []
  {
    match WalkObjects(h, root, path[..|path| - 1])
    case None => Undefined
    case Some(o) => Read(h, o, path[|path| - 1])
  }

  lemma {:induction false} WalkObjectsIsWalk(h: Heap, root: BoundObject, path: seq<string>)
    ensures WalkObjects(h, root, path).Some? ==> Walk(h, root, path) == WalkObjects(h, root, path)
  {
    if path != [] {
      WalkObjectsIsWalk(h, root, path[..|path| - 1]);
    }
  }

  /** The object that property k of object o refers to. */
  ghost function Target(h: Heap, o: BoundObject, k: string): Option<BoundObject> {
    if Read(h, o, k).IsReference() then Some(Read(h, o, k).o) else None
  }

  ghost predicate Closed(h: Heap) {
    forall o, k | o in h :: Target(h, o, k).Some? ==> Target(h, o, k).value in h
  }

  /** No object hangs in two places, and none hangs the root. */
  ghost predicate Tree(h: Heap, root: BoundObject) {
    && root in h && Closed(h)
    && (forall o, k | o in h :: Target(h, o, k) != Some(root))
    && (forall o, k, p, l | o in h && p in h :: Target(h, o, k).Some? && Target(h, o, k) == Target(h, p, l) ==> o == p && k == l)
  }

  /** In a tree there is only one path to an object. */
  lemma {:induction false} OnePath(h: Heap, root: BoundObject, p: seq<string>, q: seq<string>)
    requires Tree(h, root) && Walk(h, root, p).Some? && Walk(h, root, p) == Walk(h, root, q)
    ensures p == q
    decreases |p|
  {
    if p != [] {
      assert Target(h, Walk(h, root, p[..|p| - 1]).value, p[|p| - 1]) == Walk(h, root, p);
    }
    if q != [] {
      assert Target(h, Walk(h, root, q[..|q| - 1]).value, q[|q| - 1]) == Walk(h, root, q);
    }
    if p != [] && q != [] {
      OnePath(h, root, p[..|p| - 1], q[..|q| - 1]);
      assert p == p[..|p| - 1] + [p[|p| - 1]] && q == q[..|q| - 1] + [q[|q| - 1]];
    }
  }

  lemma {:induction false} WalkIn(h: Heap, root: BoundObject, path: seq<string>)
    requires root in h && Closed(h)
    ensures Walk(h, root, path).Some? ==> Walk(h, root, path).value in h
  {
    if path != [] {
      var n := |path| - 1;
      WalkIn(h, root, path[..n]);
      if Walk(h, root, path).Some? {
        assert Target(h, Walk(h, root, path[..n]).value, path[n]) == Walk(h, root, path);
      }
    }
  }

  /** Stepping along the path reads property `name` of object o nowhere. */
  ghost predicate Avoids(h: Heap, root: BoundObject, path: seq<string>, o: BoundObject, name: string) {
    forall j :: 0 <= j < |path| ==> Walk(h, root, path[..j]) != Some(o) || path[j] != name
  }

  lemma AvoidsPart(h: Heap, root: BoundObject, path: seq<string>, o: BoundObject, name: string, i: nat)
    requires i <= |path| && Avoids(h, root, path, o, name)
    ensures Avoids(h, root, path[..i], o, name)
  {
    assert forall j :: 0 <= j < i ==> path[..i][..j] == path[..j];
  }

  /** Of the objects there were, only property `name` of object o may read differently. */
  ghost predicate SameBut(before: Heap, after: Heap, o: BoundObject, name: string) {
    forall p, k :: p in before && (p != o || k != name) ==> Read(after, p, k) == Read(before, p, k)
  }

  /** A write changes no path that does not read the written property; the objects may form any graph. */
  lemma {:induction false} WriteFrame(before: Heap, after: Heap, root: BoundObject, q: seq<string>, o: BoundObject, name: string)
    requires root in before && Closed(before) && SameBut(before, after, o, name) && Avoids(before, root, q, o, name)
    ensures Walk(after, root, q) == Walk(before, root, q) && WalkObjects(after, root, q) == WalkObjects(before, root, q)
    ensures q != [] ==> ValueAt(after, root, q) == ValueAt(before, root, q) && Resolve(after, root, q) == Resolve(before, root, q)
    decreases |q|
  {
    if q != [] {
      var n := |q| - 1;
      AvoidsPart(before, root, q, o, name, n);
      WriteFrame(before, after, root, q[..n], o, name);
      WalkIn(before, root, q[..n]);
      WalkObjectsIsWalk(before, root, q[..n]);
    }
  }

  /** Behind an unused name there is nothing. */
  lemma {:induction false} NothingBehind(h: Heap, root: BoundObject, p: seq<string>, q: seq<string>)
    requires p != [] && p <= q && ValueAt(h, root, p) == Undefined
    ensures ValueAt(h, root, q) == Undefined && Resolve(h, root, q) == Undefined && Walk(h, root, q).None?
    decreases |q|
  {
    if |q| == |p| {
      assert p == q;
      WalkObjectsIsWalk(h, root, q[..|q| - 1]);
    } else {
      NothingBehind(h, root, p, q[..|q| - 1]);
      WalkObjectsIsWalk(h, root, q[..|q| - 1]);
    }
  }

  /** Every step of a path that leads to an object is a reference. */
  lemma {:induction false} StepsAreReferences(h: Heap, root: BoundObject, path: seq<string>, k: nat, j: nat)
    requires 0 < j <= k <= |path| && Walk(h, root, path[..k]).Some?
    ensures ValueAt(h, root, path[..j]).IsReference() && Walk(h, root, path[..j]) == Some(ValueAt(h, root, path[..j]).o)
    decreases k
  {
    assert path[..k][..k - 1] == path[..k - 1];
    if j < k {
      StepsAreReferences(h, root, path, k - 1, j);
    }
  }

  /** What SetNS passes on the way to the last segment is undefined or an object of some kind. */
  ghost predicate Passable(h: Heap, root: BoundObject, path: seq<string>) {
    forall j :: 0 < j < |path| ==> ValueAt(h, root, path[..j]) == Undefined || ValueAt(h, root, path[..j]).IsReference()
  }

  /** The same, without methods and lists. */
  ghost predicate ObjectsOnly(h: Heap, root: BoundObject, path: seq<string>) {
    forall j :: 0 < j < |path| ==> ValueAt(h, root, path[..j]) == Undefined || ValueAt(h, root, path[..j]).ObjectValue?
  }

  ghost function Objects(os: seq<BoundObject>): set<BoundObject> { set o | o in os }

  /** `after` is `before` with a chain of new objects hung at property path[k] of object o: each holds the next one
      under the next segment, and the last has the properties `tail`. */
  ghost predicate Hung(before: Heap, after: Heap, o: BoundObject, path: seq<string>, k: nat, created: seq<BoundObject>, tail: Properties)
    requires created != [] && k + |created| <= |path|
  {
    && o in before && Distinct(created) && Objects(created) !! before.Keys && after.Keys == before.Keys + Objects(created)
    && after[o] == before[o][path[k] := ObjectValue(created[0])]
    && (forall p :: p in before && p != o ==> after[p] == before[p])
    && (forall m {:trigger Link(path, k, created, m, tail)} :: 0 <= m < |created| ==>
          Holds(after, created[m], Link(path, k, created, m, tail)))
  }

  ghost predicate Holds(h: Heap, o: BoundObject, properties: Properties) { o in h && h[o] == properties }

  /** What the m-th new object holds. */
  ghost function Link(path: seq<string>, k: nat, created: seq<BoundObject>, m: nat, tail: Properties): Properties
    requires m < |created| && k + |created| <= |path|
  {
    if m < |created| - 1 then map[path[k + 1 + m] := ObjectValue(created[m + 1])] else tail
  }

  /** What SetNS makes of the heap: the first k segments lead through objects there were, to the first undefined
      property of the path or to the last segment; from there a new object for each further segment but the last, and
      the value under the last. */
  ghost predicate Grafted(h0: Heap, h: Heap, root: BoundObject, path: seq<string>, k: nat, created: seq<BoundObject>, v: Value)
    requires path != []
  {
    && k + |created| == |path| - 1
    && Walk(h0, root, path[..k]).Some?
    && var o := Walk(h0, root, path[..k]).value;
      if created == [] then o in h0 && h == h0[o := h0[o][path[k] := v]]
      else Read(h0, o, path[k]) == Undefined && Hung(h0, h, o, path, k, created, map[path[|path| - 1] := v])
  }

  /** What the loop of SetNS has established after the first i segments. */
  ghost predicate Progress(h0: Heap, h: Heap, root: BoundObject, path: seq<string>, i: nat, k: nat, created: seq<BoundObject>,
                           scope: BoundObject)
    requires i <= |path|
  {
    && k + |created| == i && scope in h
    && Walk(h0, root, path[..k]).Some?
    && var o := Walk(h0, root, path[..k]).value;
      if created == [] then h == h0 && scope == o
      else Read(h0, o, path[k]) == Undefined && Hung(h0, h, o, path, k, created, map[]) && scope == created[|created| - 1]
  }

  /** Entering a segment that is undefined. */
  lemma CreateStep(h0: Heap, h: Heap, after: Heap, root: BoundObject, path: seq<string>, i: nat, k: nat, created: seq<BoundObject>,
                   scope: BoundObject, next: BoundObject)
    requires i < |path| && Progress(h0, h, root, path, i, k, created, scope) && Read(h, scope, path[i]) == Undefined
    requires next !in h && after == h[next := map[]][scope := h[scope][path[i] := ObjectValue(next)]]
    ensures Progress(h0, after, root, path, i + 1, k, created + [next], next)
  {
    var more := created + [next];
    assert Objects(more) == Objects(created) + {next};
    assert more[0] == if created == [] then next else created[0];
    forall m | 0 <= m < |more|
      ensures Holds(after, more[m], Link(path, k, more, m, map[]))
    {
      if m < |created| {
        NewLink(h, after, path, i, k, created, scope, next, m);
      }
    }
  }

  lemma NewLink(h: Heap, after: Heap, path: seq<string>, i: nat, k: nat, created: seq<BoundObject>, scope: BoundObject, next: BoundObject, m: nat)
    requires m < |created| && i < |path| && k + |created| == i && Distinct(created) && scope == created[|created| - 1]
    requires Holds(h, created[m], Link(path, k, created, m, map[])) && scope in h && next !in h
    requires after == h[next := map[]][scope := h[scope][path[i] := ObjectValue(next)]]
    ensures Holds(after, created[m], Link(path, k, created + [next], m, map[]))
  {
    if m < |created| - 1 {
      assert created[m] != scope;
      assert (created + [next])[m + 1] == created[m + 1];
    }
  }

  /** The object just created is empty. */
  lemma NewIsEmpty(h0: Heap, h: Heap, root: BoundObject, path: seq<string>, i: nat, k: nat, created: seq<BoundObject>, scope: BoundObject)
    requires i <= |path| && Progress(h0, h, root, path, i, k, created, scope) && created != []
    ensures h[scope] == map[]
  {
    assert Holds(h, scope, Link(path, k, created, |created| - 1, map[]));
  }

  /** Stepping into an existing object: so far nothing has been created. */
  lemma DescendStep(h0: Heap, h: Heap, root: BoundObject, path: seq<string>, i: nat, k: nat, created: seq<BoundObject>, scope: BoundObject)
    requires i < |path| && Progress(h0, h, root, path, i, k, created, scope) && Read(h, scope, path[i]).IsReference()
    requires Closed(h0)
    ensures created == [] && Progress(h0, h, root, path, i + 1, k + 1, [], Read(h, scope, path[i]).o)
  {
    if created != [] {
      NewIsEmpty(h0, h, root, path, i, k, created, scope);
    }
    assert path[..i + 1][..i] == path[..i];
    assert Target(h0, scope, path[i]) == Some(Read(h, scope, path[i]).o);
  }

  /** A value that is no object stops SetNS, and it can only stop before anything was created. */
  lemma Blocked(h0: Heap, h: Heap, root: BoundObject, path: seq<string>, i: nat, k: nat, created: seq<BoundObject>, scope: BoundObject)
    requires i < |path| - 1 && Progress(h0, h, root, path, i, k, created, scope) && Read(h, scope, path[i]).Scalar?
    ensures h == h0 && created == [] && !Passable(h0, root, path)
  {
    if created != [] {
      NewIsEmpty(h0, h, root, path, i, k, created, scope);
    }
    assert path[..i + 1][..i] == path[..i];
    assert ValueAt(h0, root, path[..i + 1]).Scalar?;
  }

  /** The write under the last segment. */
  lemma LastWrite(h0: Heap, h: Heap, after: Heap, root: BoundObject, path: seq<string>, k: nat, created: seq<BoundObject>,
                  scope: BoundObject, v: Value)
    requires path != [] && Progress(h0, h, root, path, |path| - 1, k, created, scope)
    requires after == h[scope := h[scope][path[|path| - 1] := v]]
    ensures Grafted(h0, after, root, path, k, created, v)
  {
    var tail: Properties := map[path[|path| - 1] := v];
    forall m | 0 <= m < |created|
      ensures Holds(after, created[m], Link(path, k, created, m, tail))
    {
      assert Holds(h, created[m], Link(path, k, created, m, map[]));
      assert created[m] == scope <==> m == |created| - 1;
    }
  }

  lemma GraftedPassable(h0: Heap, h: Heap, root: BoundObject, path: seq<string>, k: nat, created: seq<BoundObject>, v: Value)
    requires path != [] && Grafted(h0, h, root, path, k, created, v)
    ensures Passable(h0, root, path)
  {
    forall j | 0 < j < |path|
      ensures ValueAt(h0, root, path[..j]) == Undefined || ValueAt(h0, root, path[..j]).IsReference()
    {
      if j <= k {
        StepsAreReferences(h0, root, path, k, j);
      } else {
        GraftedBehind(h0, h, root, path, k, created, v, j);
      }
    }
  }

  /** Where objects were created there was nothing. */
  lemma GraftedBehind(h0: Heap, h: Heap, root: BoundObject, path: seq<string>, k: nat, created: seq<BoundObject>, v: Value, j: nat)
    requires path != [] && Grafted(h0, h, root, path, k, created, v) && k < j < |path|
    ensures ValueAt(h0, root, path[..j]) == Undefined
  {
    assert path[..k + 1][..k] == path[..k];
    NothingBehind(h0, root, path[..k + 1], path[..j]);
  }

  /** The steps before the k-th do not read the property that the k-th reads. */
  ghost predicate ReadsOnce(h: Heap, root: BoundObject, path: seq<string>, k: nat)
    requires k < |path|
  {
    Walk(h, root, path[..k]).Some? ==> Avoids(h, root, path[..k], Walk(h, root, path[..k]).value, path[k])
  }

  /** Nothing on the way reads a property that was undefined. */
  lemma CreatedReadsOnce(h0: Heap, h: Heap, root: BoundObject, path: seq<string>, k: nat, created: seq<BoundObject>, v: Value)
    requires path != [] && Grafted(h0, h, root, path, k, created, v) && created != []
    ensures ReadsOnce(h0, root, path, k)
  {
    forall j | 0 <= j < k
      ensures Walk(h0, root, path[..k][..j]) != Walk(h0, root, path[..k]) || path[j] != path[k]
    {
      StepsAreReferences(h0, root, path, k, j + 1);
      assert path[..k][..j] == path[..j] == path[..j + 1][..j];
    }
  }

  lemma GraftKeepsClosed(h0: Heap, h: Heap, root: BoundObject, path: seq<string>, k: nat, created: seq<BoundObject>, v: Value)
    requires path != [] && Closed(h0) && Grafted(h0, h, root, path, k, created, v) && (v.IsReference() ==> v.o in h)
    ensures Closed(h)
  {
    forall o, name | o in h && Target(h, o, name).Some?
      ensures Target(h, o, name).value in h
    {
      if o !in h0 {
        var m :| 0 <= m < |created| && created[m] == o;
        assert Holds(h, created[m], Link(path, k, created, m, map[path[|path| - 1] := v]));
      } else if Read(h, o, name) == Read(h0, o, name) {
        assert Target(h0, o, name) == Target(h, o, name);
      }
    }
  }

  /** Paths that do not read the one property written are as before. */
  lemma GraftFrame(h0: Heap, h: Heap, root: BoundObject, path: seq<string>, k: nat, created: seq<BoundObject>, v: Value, q: seq<string>)
    requires path != [] && root in h0 && Closed(h0) && Grafted(h0, h, root, path, k, created, v)
    requires Avoids(h0, root, q, Walk(h0, root, path[..k]).value, path[k])
    ensures Walk(h, root, q) == Walk(h0, root, q) && WalkObjects(h, root, q) == WalkObjects(h0, root, q)
    ensures q != [] ==> ValueAt(h, root, q) == ValueAt(h0, root, q) && Resolve(h, root, q) == Resolve(h0, root, q)
  {
    WriteFrame(h0, h, root, q, Walk(h0, root, path[..k]).value, path[k]);
  }

  /** Where the path is after i segments: at the end of its old part, or at a new object. */
  ghost function NewAt(h0: Heap, root: BoundObject, path: seq<string>, k: nat, created: seq<BoundObject>, i: nat): (r: Option<BoundObject>)
    requires k <= i <= |path| && i <= k + |created|
    ensures Walk(h0, root, path[..k]).Some? ==> r.Some?
  {
    if i == k then Walk(h0, root, path[..k]) else Some(created[i - k - 1])
  }

  ghost function NextValue(created: seq<BoundObject>, m: nat, v: Value): Value { if m < |created| then ObjectValue(created[m]) else v }

  lemma LinkReads(h: Heap, path: seq<string>, k: nat, created: seq<BoundObject>, m: nat, v: Value, name: string)
    requires m < |created| && k + |created| == |path| - 1
    requires Holds(h, created[m], Link(path, k, created, m, map[path[|path| - 1] := v]))
    ensures Read(h, created[m], name) == if name == path[k + 1 + m] then NextValue(created, m + 1, v) else Undefined
  {
  }

  lemma GraftStart(h0: Heap, h: Heap, root: BoundObject, path: seq<string>, k: nat, created: seq<BoundObject>, v: Value, o: BoundObject)
    requires path != [] && Grafted(h0, h, root, path, k, created, v) && Walk(h0, root, path[..k]) == Some(o)
    ensures Read(h, o, path[k]) == NextValue(created, 0, v)
  {
  }

  /** What the objects on the new part of the path read. */
  lemma GraftReads(h0: Heap, h: Heap, root: BoundObject, path: seq<string>, k: nat, created: seq<BoundObject>, v: Value, i: nat,
                   o: BoundObject, name: string)
    requires path != [] && Grafted(h0, h, root, path, k, created, v) && k <= i < |path|
    requires NewAt(h0, root, path, k, created, i) == Some(o) && (i > k || name == path[i])
    ensures Read(h, o, name) == if name == path[i] then NextValue(created, i - k, v) else Undefined
  {
    if i == k {
      GraftStart(h0, h, root, path, k, created, v, o);
    } else {
      var m := i - k - 1;
      assert Holds(h, created[m], Link(path, k, created, m, map[path[|path| - 1] := v]));
      LinkReads(h, path, k, created, m, v, name);
    }
  }

  lemma WalkStep(h: Heap, root: BoundObject, p: seq<string>, name: string, q: seq<string>, o: BoundObject, v: Value)
    requires q == p + [name] && Walk(h, root, p) == Some(o) && Read(h, o, name) == v
    ensures ValueAt(h, root, q) == v
    ensures v.IsReference() ==> Walk(h, root, q) == Some(v.o)
  {
    assert q[..|q| - 1] == p;
  }

  /** The new objects stand one behind the other along the path. */
  lemma {:induction false} Chain(h0: Heap, h: Heap, root: BoundObject, path: seq<string>, k: nat, created: seq<BoundObject>, v: Value, i: nat)
    requires path != [] && root in h0 && Closed(h0) && Grafted(h0, h, root, path, k, created, v) && k <= i < |path|
    requires ReadsOnce(h0, root, path, k)
    ensures Walk(h, root, path[..i]) == NewAt(h0, root, path, k, created, i)
    decreases i
  {
    if i == k {
      GraftFrame(h0, h, root, path, k, created, v, path[..k]);
    } else {
      var n := i - 1;
      Chain(h0, h, root, path, k, created, v, n);
      var o := NewAt(h0, root, path, k, created, n);
      GraftReads(h0, h, root, path, k, created, v, n, o.value, path[n]);
      WalkStep(h, root, path[..n], path[n], path[..i], o.value, ObjectValue(created[n - k]));
    }
  }

  lemma ChainValue(h0: Heap, h: Heap, root: BoundObject, path: seq<string>, k: nat, created: seq<BoundObject>, v: Value, j: nat)
    requires path != [] && root in h0 && Closed(h0) && Grafted(h0, h, root, path, k, created, v) && k < j <= |path|
    requires ReadsOnce(h0, root, path, k)
    ensures ValueAt(h, root, path[..j]) == NextValue(created, j - 1 - k, v)
  {
    var i := j - 1;
    Chain(h0, h, root, path, k, created, v, i);
    var o := NewAt(h0, root, path, k, created, i);
    GraftReads(h0, h, root, path, k, created, v, i, o.value, path[i]);
    WalkStep(h, root, path[..i], path[i], path[..j], o.value, NextValue(created, i - k, v));
  }

  /** Up to the last segment, what was there is there still, and what was undefined is an object; at the end is the
      value. */
  lemma SetLeadsTo(h0: Heap, h: Heap, root: BoundObject, path: seq<string>, k: nat, created: seq<BoundObject>, v: Value)
    requires path != [] && root in h0 && Closed(h0) && Grafted(h0, h, root, path, k, created, v) && ReadsOnce(h0, root, path, k)
    ensures ValueAt(h, root, path) == v
    ensures forall j :: 0 < j < |path| ==>
      if ValueAt(h0, root, path[..j]) == Undefined then ValueAt(h, root, path[..j]).ObjectValue?
      else ValueAt(h, root, path[..j]) == ValueAt(h0, root, path[..j])
  {
    forall j | 0 < j < |path|
      ensures if ValueAt(h0, root, path[..j]) == Undefined then ValueAt(h, root, path[..j]).ObjectValue?
        else ValueAt(h, root, path[..j]) == ValueAt(h0, root, path[..j])
    {
      if j <= k {
        OldPart(h0, h, root, path, k, created, v, j);
      } else {
        NewPart(h0, h, root, path, k, created, v, j);
      }
    }
    ChainValue(h0, h, root, path, k, created, v, |path|);
    assert path[..|path|] == path;
  }

  lemma NewPart(h0: Heap, h: Heap, root: BoundObject, path: seq<string>, k: nat, created: seq<BoundObject>, v: Value, j: nat)
    requires path != [] && root in h0 && Closed(h0) && Grafted(h0, h, root, path, k, created, v) && ReadsOnce(h0, root, path, k)
    requires k < j < |path|
    ensures ValueAt(h0, root, path[..j]) == Undefined && ValueAt(h, root, path[..j]).ObjectValue?
  {
    GraftedBehind(h0, h, root, path, k, created, v, j);
    ChainValue(h0, h, root, path, k, created, v, j);
  }

  lemma OldPart(h0: Heap, h: Heap, root: BoundObject, path: seq<string>, k: nat, created: seq<BoundObject>, v: Value, j: nat)
    requires path != [] && root in h0 && Closed(h0) && Grafted(h0, h, root, path, k, created, v) && ReadsOnce(h0, root, path, k)
    requires 0 < j <= k
    ensures ValueAt(h0, root, path[..j]).IsReference() && ValueAt(h, root, path[..j]) == ValueAt(h0, root, path[..j])
  {
    AvoidsPart(h0, root, path[..k], Walk(h0, root, path[..k]).value, path[k], j);
    assert path[..k][..j] == path[..j];
    GraftFrame(h0, h, root, path, k, created, v, path[..j]);
    StepsAreReferences(h0, root, path, k, j);
  }

  lemma {:induction false} WalkObjectsIff(h: Heap, root: BoundObject, path: seq<string>, i: nat)
    requires i <= |path|
    ensures WalkObjects(h, root, path[..i]).Some? <==> forall j :: 0 < j <= i ==> ValueAt(h, root, path[..j]).ObjectValue?
  {
    if i > 0 {
      assert path[..i][..i - 1] == path[..i - 1];
      WalkObjectsIff(h, root, path, i - 1);
      WalkObjectsIsWalk(h, root, path[..i - 1]);
    }
  }

  /** If the path reads the written property at its end alone, GetNS finds the value exactly if it has to step
      through no method and no list. */
  lemma ResolvedAfterSet(h0: Heap, h: Heap, root: BoundObject, path: seq<string>, k: nat, created: seq<BoundObject>, v: Value)
    requires path != [] && root in h0 && Closed(h0) && Grafted(h0, h, root, path, k, created, v) && ReadsOnce(h0, root, path, k)
    ensures Resolve(h, root, path) == v <==> ObjectsOnly(h0, root, path) || v == Undefined
  {
    var n := |path| - 1;
    SetLeadsTo(h0, h, root, path, k, created, v);
    GraftedPassable(h0, h, root, path, k, created, v);
    WalkObjectsIff(h, root, path, n);
    WalkObjectsIsWalk(h, root, path[..n]);
  }

  lemma {:induction false} WalkObjectsOn(h: Heap, root: BoundObject, p: seq<string>, q: seq<string>)
    ensures WalkObjects(h, root, p + q) ==
      match WalkObjects(h, root, p) case None => None case Some(o) => WalkObjects(h, o, q)
    decreases |q|
  {
    if q == [] {
      assert p + q == p;
    } else {
      assert (p + q)[..|p + q| - 1] == p + q[..|q| - 1];
      WalkObjectsOn(h, root, p, q[..|q| - 1]);
    }
  }

  lemma ResolveOn(h: Heap, root: BoundObject, p: seq<string>, q: seq<string>, path: seq<string>)
    requires q != [] && path == p + q
    ensures Resolve(h, root, path) == match WalkObjects(h, root, p) case None => Undefined case Some(o) => Resolve(h, o, q)
  {
    WalkObjectsOn(h, root, p, q[..|q| - 1]);
    assert path[..|path| - 1] == p + q[..|q| - 1];
  }

  lemma {:induction false} FirstRead(h: Heap, root: BoundObject, path: seq<string>, o: BoundObject, name: string) returns (j: nat)
    requires !Avoids(h, root, path, o, name)
    ensures j < |path| && Walk(h, root, path[..j]) == Some(o) && path[j] == name && Avoids(h, root, path[..j], o, name)
    decreases |path|
  {
    var n := |path| - 1;
    if Avoids(h, root, path[..n], o, name) {
      j := n;
      assert forall i :: 0 <= i < n ==> path[..n][..i] == path[..i];
    } else {
      j := FirstRead(h, root, path[..n], o, name);
      assert path[..n][..j] == path[..j];
    }
  }

  /** Objects may form a ring: if an earlier step j of the path reads the written property too, GetNS goes on from the
      value already there. */
  lemma OverwrittenOnTheWay(h0: Heap, h: Heap, root: BoundObject, path: seq<string>, k: nat, created: seq<BoundObject>, v: Value)
    returns (j: nat)
    requires path != [] && root in h0 && Closed(h0) && Grafted(h0, h, root, path, k, created, v) && !ReadsOnce(h0, root, path, k)
    ensures created == [] && j < k == |path| - 1
    // j is the first such step
    ensures Walk(h0, root, path[..j]) == Walk(h0, root, path[..k]) && path[j] == path[k]
    ensures Avoids(h0, root, path[..j], Walk(h0, root, path[..k]).value, path[k])
    ensures Resolve(h, root, path) ==
      if ObjectsOnly(h0, root, path[..j + 1]) && v.ObjectValue? then Resolve(h, v.o, path[j + 1..]) else Undefined
  {
    if created != [] {
      CreatedReadsOnce(h0, h, root, path, k, created, v);
    }
    var o := Walk(h0, root, path[..k]).value;
    j := FirstRead(h0, root, path[..k], o, path[k]);
    assert path[..k][..j] == path[..j];
    GraftStart(h0, h, root, path, k, created, v, o);
    WriteFrame(h0, h, root, path[..j], o, path[k]);
    GoOnFromValue(h0, h, root, path, k, j, o, v, path[j + 1..]);
  }

  lemma GoOnFromValue(h0: Heap, h: Heap, root: BoundObject, path: seq<string>, k: nat, j: nat, o: BoundObject, v: Value, q: seq<string>)
    requires j < k < |path| && Walk(h0, root, path[..k]) == Walk(h0, root, path[..j]) == Some(o) && Read(h, o, path[j]) == v
    requires WalkObjects(h, root, path[..j]) == WalkObjects(h0, root, path[..j]) && q == path[j + 1..]
    ensures Resolve(h, root, path) == if ObjectsOnly(h0, root, path[..j + 1]) && v.ObjectValue? then Resolve(h, v.o, q) else Undefined
  {
    StepOntoValue(h0, h, root, path, k, j, v);
    assert path == path[..j + 1] + q;
    ResolveOn(h, root, path[..j + 1], q, path);
  }

  lemma StepOntoValue(h0: Heap, h: Heap, root: BoundObject, path: seq<string>, k: nat, j: nat, v: Value)
    requires j < k < |path| && Walk(h0, root, path[..k]).Some? && Walk(h0, root, path[..j]) == Walk(h0, root, path[..k])
    requires Read(h, Walk(h0, root, path[..k]).value, path[j]) == v && WalkObjects(h, root, path[..j]) == WalkObjects(h0, root, path[..j])
    ensures WalkObjects(h, root, path[..j + 1]) ==
      if ObjectsOnly(h0, root, path[..j + 1]) && v.ObjectValue? then Some(v.o) else None
  {
    var p := path[..j + 1];
    assert p[..j] == path[..j];
    WalkObjectsIff(h0, root, p, j);
    WalkObjectsIsWalk(h0, root, path[..j]);
    forall i | 0 < i <= j
      ensures ValueAt(h0, root, p[..i]) != Undefined
    {
      assert p[..i] == path[..i];
      StepsAreReferences(h0, root, path, k, i);
    }
  }

  /** The effect of SetNS(path, v) on a tree: the value is found at path if only undefined values and proper
      objects were on the way (a method or list on the way hides it from GetNS, though SetNS steps through);
      undefined values on the way have become objects; every other path that does not extend this one reads
      as before. */
  ghost predicate IsSet(h0: Heap, h: Heap, root: BoundObject, path: seq<string>, v: Value)
    requires path != []
  {
    && (Resolve(h, root, path) == v <==> ObjectsOnly(h0, root, path) || v == Undefined)
    && (forall q :: q != [] && !(q <= path) && !(path <= q) ==> Resolve(h, root, q) == Resolve(h0, root, q))
    && (forall j :: 0 < j < |path| ==>
          if ValueAt(h0, root, path[..j]) == Undefined then ValueAt(h, root, path[..j]).ObjectValue?
          else ValueAt(h, root, path[..j]) == ValueAt(h0, root, path[..j]))
  }

  /** In a tree only the paths through the written property read it. */
  lemma TreeAvoids(h: Heap, root: BoundObject, path: seq<string>, k: nat, q: seq<string>)
    requires Tree(h, root) && k < |path| && Walk(h, root, path[..k]).Some? && !(path[..k + 1] <= q)
    ensures Avoids(h, root, q, Walk(h, root, path[..k]).value, path[k])
  {
    forall j | 0 <= j < |q| && Walk(h, root, q[..j]) == Walk(h, root, path[..k])
      ensures q[j] != path[k]
    {
      OnePath(h, root, q[..j], path[..k]);
      assert path[..k + 1] == path[..k] + [path[k]] && q[..j + 1] == q[..j] + [q[j]];
    }
  }

  lemma Fork(p: seq<string>, q: seq<string>) returns (d: nat)
    requires !(p <= q) && !(q <= p)
    ensures d < |p| && d < |q| && p[..d] == q[..d] && p[d] != q[d]
  {
    d := 0;
    while d < |p| && d < |q| && p[d] == q[d]
      invariant d <= |p| && d <= |q| && p[..d] == q[..d]
    {
      d := d + 1;
    }
  }

  /** A path that leaves the new chain reads Undefined, as before. */
  lemma OffChain(h0: Heap, h: Heap, root: BoundObject, path: seq<string>, k: nat, created: seq<BoundObject>, v: Value, q: seq<string>)
    requires path != [] && root in h0 && Closed(h0) && Grafted(h0, h, root, path, k, created, v)
    requires path[..k + 1] <= q && !(path <= q) && !(q <= path)
    ensures Resolve(h, root, q) == Undefined && Resolve(h0, root, q) == Undefined
  {
    var d := Fork(path, q);
    assert forall j :: 0 <= j <= k ==> q[j] == path[..k + 1][j];
    assert path[..k + 1][..k] == path[..k];
    NothingBehind(h0, root, path[..k + 1], q);
    CreatedReadsOnce(h0, h, root, path, k, created, v);
    Chain(h0, h, root, path, k, created, v, d);
    var o := NewAt(h0, root, path, k, created, d).value;
    GraftReads(h0, h, root, path, k, created, v, d, o, q[d]);
    var p := q[..d + 1];
    WalkStep(h, root, q[..d], q[d], p, o, Undefined);
    NothingBehind(h, root, p, q);
  }

  /** On a tree SetNS has the effect above. */
  lemma SetOnTree(h0: Heap, h: Heap, root: BoundObject, path: seq<string>, k: nat, created: seq<BoundObject>, v: Value)
    requires path != [] && Tree(h0, root) && Grafted(h0, h, root, path, k, created, v)
    ensures IsSet(h0, h, root, path, v)
  {
    TreeAvoids(h0, root, path, k, path[..k]);
    ResolvedAfterSet(h0, h, root, path, k, created, v);
    SetLeadsTo(h0, h, root, path, k, created, v);
    forall q | q != [] && !(q <= path) && !(path <= q)
      ensures Resolve(h, root, q) == Resolve(h0, root, q)
    {
      if path[..k + 1] <= q {
        assert path[..|path|] == path;
        OffChain(h0, h, root, path, k, created, v, q);
      } else {
        TreeAvoids(h0, root, path, k, q);
        GraftFrame(h0, h, root, path, k, created, v, q);
      }
    }
  }

  /** Once GetNS cannot step on, there is nothing at the end of the path. */
  lemma NoWay(h: Heap, root: BoundObject, path: seq<string>, i: nat)
    requires i < |path| - 1 && WalkObjects(h, root, path[..i + 1]).None?
    ensures Resolve(h, root, path) == Undefined
  {
    StuckStays(h, root, path, i + 1, |path| - 1);
  }

  lemma {:induction false} StuckStays(h: Heap, root: BoundObject, path: seq<string>, i: nat, k: nat)
    requires i <= k <= |path| && WalkObjects(h, root, path[..i]).None?
    ensures WalkObjects(h, root, path[..k]).None?
    decreases k
  {
    if i < k {
      assert path[..k][..k - 1] == path[..k - 1];
      StuckStays(h, root, path, i, k - 1);
    }
  }

  /** The segments between dots from position last on, empty ones included. */
  function SegmentsFrom(name: string, last: nat): (r: seq<string>)
    requires last <= |name|
    ensures r != []
    decreases |name| - last
  {
    var pos := FindFirstOf(name, ".", last);
    if pos == |name| then [name[last..]] else [name[last..pos]] + SegmentsFrom(name, pos + 1)
  }

  function Segments(name: string): seq<string> { SegmentsFrom(name, 0) }

  /** The segments of a name, empty ones included, are what stands between its dots. */
  lemma {:induction false} SegmentsJoin(name: string, last: nat)
    requires last <= |name|
    ensures Join(SegmentsFrom(name, last), ".") == name[last..]
    ensures forall s :: s in SegmentsFrom(name, last) ==> '.' !in s
    decreases |name| - last
  {
    var pos := FindFirstOf(name, ".", last);
    FirstSegment(name, last, pos);
    if pos < |name| {
      SegmentsJoin(name, pos + 1);
      var rest := SegmentsFrom(name, pos + 1);
      assert ([name[last..pos]] + rest)[1..] == rest;
      assert name[last..] == name[last..pos] + "." + name[pos + 1..];
    }
  }

  /** What one round of SegmentsFrom splits off is also the first token. */
  lemma SegmentIsToken(name: string, delims: string, last: nat, pos: nat)
    requires last < |name| && name[last] !in delims && pos == FindFirstOf(name, delims, last) < |name|
    ensures Tokens(name[last..], delims) == [name[last..pos]] + Tokens(name[pos + 1..], delims)
  {
    var rest := Tokens(name[pos + 1..], delims);
    SkipOne(name, delims, pos);
    SplitToken(name, delims, last, pos);
    assert Tokens(name[pos..], delims) == rest;
  }

  lemma LastSegmentIsToken(s: string, delims: string)
    requires s != "" && s[0] !in delims && FindFirstOf(s, delims, 0) == |s|
    ensures Tokens(s, delims) == [s]
  {
    assert s[..|s|] == s && s[|s|..] == "";
  }

  lemma NonEmptySegment(name: string, last: nat)
    requires last <= |name| && "" !in SegmentsFrom(name, last)
    ensures last < |name| && name[last] != '.'
    ensures var pos := FindFirstOf(name, ".", last); pos < |name| ==> "" !in SegmentsFrom(name, pos + 1)
  {
    var pos := FindFirstOf(name, ".", last);
    assert SegmentsFrom(name, last)[0] == name[last..pos];
  }

  lemma FirstSegment(name: string, last: nat, pos: nat)
    requires last <= |name| && pos == FindFirstOf(name, ".", last)
    ensures SegmentsFrom(name, last) == if pos == |name| then [name[last..]] else [name[last..pos]] + SegmentsFrom(name, pos + 1)
  {
  }

  lemma FirstOfMany(name: string, last: nat, pos: nat, rest: seq<string>)
    requires last < |name| && name[last] != '.' && pos == FindFirstOf(name, ".", last) < |name|
    requires SegmentsFrom(name, pos + 1) == rest == Tokens(name[pos + 1..], ".")
    ensures SegmentsFrom(name, last) == Tokens(name[last..], ".")
  {
    FirstSegment(name, last, pos);
    SegmentIsToken(name, ".", last, pos);
  }

  lemma OnlySegment(name: string, last: nat)
    requires last < |name| && name[last] != '.' && FindFirstOf(name, ".", last) == |name|
    ensures SegmentsFrom(name, last) == Tokens(name[last..], ".")
  {
    FirstSegment(name, last, |name|);
    FindInSuffix(name, ".", last, last);
    LastSegmentIsToken(name[last..], ".");
  }

  lemma {:induction false} SegmentsAreTokensFrom(name: string, last: nat)
    requires last <= |name| && "" !in SegmentsFrom(name, last)
    ensures SegmentsFrom(name, last) == Tokens(name[last..], ".")
    decreases |name| - last
  {
    NonEmptySegment(name, last);
    var pos := FindFirstOf(name, ".", last);
    if pos < |name| {
      SegmentsAreTokensFrom(name, pos + 1);
      FirstOfMany(name, last, pos, SegmentsFrom(name, pos + 1));
    } else {
      OnlySegment(name, last);
    }
  }

  /** SetNS ignores empty segments and GetNS does not: they split a name the same way exactly if it has none. */
  lemma SegmentsAreTokens(name: string)
    ensures Segments(name) == Tokens(name, ".") <==> "" !in Segments(name)
  {
    if "" !in Segments(name) {
      SegmentsAreTokensFrom(name, 0);
      assert name[0..] == name;
    } else {
      TokensClean(name, ".");
    }
  }

  /** GetNS after SetNS of the same name without empty segments gives back the value exactly if no method and no list
      stands on the way, and the write has not changed the way itself; a value that is an object may be found again
      all the same. */
  lemma GetAfterSet(h0: Heap, h: Heap, root: BoundObject, name: string, k: nat, created: seq<BoundObject>, v: Value)
    requires "" !in Segments(name) && Tokens(name, ".") != []
    requires root in h0 && Closed(h0) && Grafted(h0, h, root, Tokens(name, "."), k, created, v)
    ensures ReadsOnce(h0, root, Tokens(name, "."), k) || !v.ObjectValue? ==>
      (Resolve(h, root, Segments(name)) == v <==>
        v == Undefined || (ObjectsOnly(h0, root, Tokens(name, ".")) && ReadsOnce(h0, root, Tokens(name, "."), k)))
  {
    SegmentsAreTokens(name);
    var path := Tokens(name, ".");
    if ReadsOnce(h0, root, path, k) {
      ResolvedAfterSet(h0, h, root, path, k, created, v);
    } else {
      var j := OverwrittenOnTheWay(h0, h, root, path, k, created, v);
    }
  }

  /** Segment i of a name starts at position last. */
  ghost predicate SegmentAt(name: string, path: seq<string>, i: nat, last: nat) {
    last <= |name| && i < |path| && path[i..] == SegmentsFrom(name, last)
  }

  lemma NextSegment(name: string, path: seq<string>, i: nat, last: nat, pos: nat)
    requires SegmentAt(name, path, i, last) && pos == FindFirstOf(name, ".", last)
    ensures pos == |name| ==> |path| == i + 1 && path[i] == name[last..]
    ensures pos < |name| ==> i + 1 < |path| && path[i] == name[last..pos] && SegmentAt(name, path, i + 1, pos + 1)
  {
    FirstSegment(name, last, pos);
    assert path[i..][0] == path[i] && path[i..][1..] == path[i + 1..];
  }

  /** GetNS at segment i: it steps on from a proper object and otherwise stops for good. */
  lemma GetStep(h: Heap, root: BoundObject, path: seq<string>, i: nat, scope: BoundObject)
    requires i < |path| && WalkObjects(h, root, path[..i]) == Some(scope) && scope in h && Closed(h)
    ensures var v := Read(h, scope, path[i]);
      && (i == |path| - 1 ==> Resolve(h, root, path) == v)
      && (v.ObjectValue? ==> WalkObjects(h, root, path[..i + 1]) == Some(v.o) && v.o in h)
      && (!v.ObjectValue? && i < |path| - 1 ==> Resolve(h, root, path) == Undefined)
  {
    assert path[..i + 1][..i] == path[..i];
    var v := Read(h, scope, path[i]);
    if v.ObjectValue? {
      assert Target(h, scope, path[i]) == Some(v.o);
    } else if i < |path| - 1 {
      NoWay(h, root, path, i);
    }
  }

  class BoundObject {
    var properties: Properties

    constructor ()
      ensures properties == map[]
    {
      properties := map[];
    }

    function Get(name: string): Value
      reads this
    {
      if name in properties then properties[name] else Undefined
    }

    method Set(name: string, value: Value)
      modifies this
      ensures properties == old(properties)[name := value]
    {
      properties := properties[name := value];
    }

    /** Set, as a change of the whole graph. */
    method SetIn(name: string, value: Value, ghost world: set<BoundObject>)
      requires this in world
      modifies this
      ensures Snapshot(world) == old(Snapshot(world)[this := properties[name := value]])
    {
      Set(name, value);
    }

    method HangNew(name: string, ghost world: set<BoundObject>) returns (next: BoundObject)
      requires this in world
      modifies this
      ensures fresh(next)
      ensures Snapshot(world + {next}) == old(Snapshot(world))[next := map[]][this := old(properties)[name := ObjectValue(next)]]
    {
      next := new BoundObject();
      Set(name, ObjectValue(next));
    }

    /** One round of the loop of SetNS. */
    method EnterSegment(tokens: seq<string>, i: nat, scope: BoundObject, ghost h0: Heap, ghost world: set<BoundObject>,
                        ghost k: nat, ghost created: seq<BoundObject>)
      returns (ok: bool, next: BoundObject, ghost world': set<BoundObject>, ghost k': nat, ghost created': seq<BoundObject>)
      requires i < |tokens| - 1 && scope in world && Closed(h0)
      requires Progress(h0, Snapshot(world), this, tokens, i, k, created, scope)
      modifies scope
      ensures world <= world' && fresh(world' - world) && next in world'
      ensures ok ==> Progress(h0, Snapshot(world'), this, tokens, i + 1, k', created', next)
      ensures !ok ==> world' == world && Snapshot(world) == h0 && !Passable(h0, this, tokens)
    {
      ghost var h := Snapshot(world);
      var nextValue := scope.Get(tokens[i]);
      assert Read(h, scope, tokens[i]) == nextValue;
      ok, next, world', k', created' := true, scope, world, k, created;
      if nextValue.Undefined? {
        next := scope.HangNew(tokens[i], world);
        world', created' := world + {next}, created + [next];
        CreateStep(h0, h, Snapshot(world'), this, tokens, i, k, created, scope, next);
      } else if !nextValue.IsReference() {
        Blocked(h0, h, this, tokens, i, k, created, scope);
        ok := false;
      } else {
        DescendStep(h0, h, this, tokens, i, k, created, scope);
        next := nextValue.o;
        k', created' := k + 1, [];
        assert next in h;
      }
    }

    /** Returns false where the code throws.  `world` is a set of objects with all objects they refer to, in any
        graph; `created` are the new objects, and the first k segments are those that lead through old ones. */
    method SetNS(name: string, value: Value, ghost world: set<BoundObject>)
      returns (ok: bool, ghost world': set<BoundObject>, ghost k: nat, ghost created: seq<BoundObject>)
      requires Tokens(name, ".") != []
      requires this in world && Closed(Snapshot(world))
      modifies world
      ensures world <= world' && fresh(world' - world)
      ensures ok <==> Passable(old(Snapshot(world)), this, Tokens(name, "."))
      ensures !ok ==> Snapshot(world) == old(Snapshot(world))
      ensures ok ==> Grafted(old(Snapshot(world)), Snapshot(world'), this, Tokens(name, "."), k, created, value)
      ensures (value.IsReference() ==> value.o in world) ==> Closed(Snapshot(world'))
    {
      var tokens := Tokenize(name, [], ".", false);
      assert tokens == Tokens(name, ".");
      var scope := this;
      world', k, created := world, 0, [];
      ghost var h0 := Snapshot(world);
      for i := 0 to |tokens| - 1
        invariant world <= world' && fresh(world' - world) && scope in world'
        invariant Progress(h0, Snapshot(world'), this, tokens, i, k, created, scope)
      {
        ok, scope, world', k, created := EnterSegment(tokens, i, scope, h0, world', k, created);
        if !ok {
          SameKeys(h0, world, world');
          return;
        }
      }
      ghost var h := Snapshot(world');
      scope.SetIn(tokens[|tokens| - 1], value, world');
      LastWrite(h0, h, Snapshot(world'), this, tokens, k, created, scope, value);
      GraftedPassable(h0, Snapshot(world'), this, tokens, k, created, value);
      if value.IsReference() ==> value.o in world {
        GraftKeepsClosed(h0, Snapshot(world'), this, tokens, k, created, value);
      }
      ok := true;
    }

    method GetNS(name: string, ghost world: set<BoundObject>) returns (current: Value)
      requires this in world && Closed(Snapshot(world))
      ensures current == Resolve(Snapshot(world), this, Segments(name))
    {
      var last := 0;
      var pos := FindFirstOf(name, ".", 0);
      var scope := this;
      ghost var i, h, path := 0, Snapshot(world), Segments(name);
      assert path[0..] == path;
      while pos != |name|
        invariant pos <= |name| && SegmentAt(name, path, i, last) && pos == FindFirstOf(name, ".", last)
        invariant scope in world && WalkObjects(h, this, path[..i]) == Some(scope)
        decreases |name| - pos
      {
        var token := name[last..pos];
        NextSegment(name, path, i, last, pos);
        GetStep(h, this, path, i, scope);
        current := scope.Get(token);
        assert Read(h, scope, token) == current;
        if !current.ObjectValue? {
          return Undefined;
        }
        scope := current.o;
        i := i + 1;
        last := pos + 1;
        pos := FindFirstOf(name, ".", last);
      }
      NextSegment(name, path, i, last, pos);
      GetStep(h, this, path, i, scope);
      current := scope.Get(name[last..]);
    }
  }

  lemma RingPath()
    ensures Tokens("k.k", ".") == ["k", "k"] && Segments("k.k") == ["k", "k"]
  {
    assert SegmentsFrom("k.k", 2) == ["k"];
    assert FindFirstOf("k.k", ".", 0) == 1;
    assert "k.k"[0..1] == "k";
    SegmentsAreTokens("k.k");
  }

  /** On a ring of one object the write changes the way to it, and GetNS does not find the value. */
  lemma RingHidesValue(h0: Heap, h: Heap, o: BoundObject, k: nat, created: seq<BoundObject>, id: int)
    requires h0 == map[o := map["k" := ObjectValue(o)]]
    requires Tokens("k.k", ".") != [] && Grafted(h0, h, o, Tokens("k.k", "."), k, created, Scalar(id))
    ensures h == map[o := map["k" := Scalar(id)]] && Resolve(h, o, Segments("k.k")) == Undefined
  {
    RingPath();
    var path := ["k", "k"];
    assert path[..0] == [] && path[..1] == ["k"];
    assert Walk(h0, o, path[..0]) == Some(o);
    assert Walk(h0, o, path[..1]) == Some(o);
    assert k == 1;
    var before: Properties, after: Properties := map["k" := ObjectValue(o)], map["k" := Scalar(id)];
    assert before["k" := Scalar(id)] == after;
    assert h0[o := after] == map[o := after];
    assert WalkObjects(h, o, path[..1]).None?;
  }

  lemma TwoSegments()
    ensures Tokens("m.x", ".") == ["m", "x"] && Segments("m.x") == ["m", "x"]
  {
    assert SegmentsFrom("m.x", 2) == ["x"];
    assert FindFirstOf("m.x", ".", 0) == 1;
    assert "m.x"[0..1] == "m";
    SegmentsAreTokens("m.x");
  }

  /** A method or a list on the way: SetNS writes into it, and GetNS does not find the value. */
  lemma MethodHidesValue(h0: Heap, h: Heap, o: BoundObject, f: BoundObject, way: Value, k: nat, created: seq<BoundObject>, id: int)
    requires way in {MethodValue(f), ListValue(f)} && o != f && h0 == map[o := map["m" := way], f := map[]]
    requires Tokens("m.x", ".") != [] && Grafted(h0, h, o, Tokens("m.x", "."), k, created, Scalar(id))
    ensures Read(h, f, "x") == Scalar(id) && Resolve(h, o, Segments("m.x")) == Undefined
  {
    TwoSegments();
    var path := ["m", "x"];
    assert path[..0] == [] && path[..1] == ["m"];
    assert Walk(h0, o, path[..0]) == Some(o);
    assert Walk(h0, o, path[..1]) == Some(f);
    assert k == 1;
    assert Read(h, o, "m") == way;
    assert WalkObjects(h, o, path[..1]).None?;
  }

  /** The same with the objects themselves: the calls succeed, the value is in the method or list, and GetNS answers
      Undefined. */
  method MethodOnTheWay(isList: bool, id: int) returns (ok: bool, written: Value, answer: Value)
    ensures ok && written == Scalar(id) && answer == Undefined
  {
    var o := new BoundObject();
    var f := new BoundObject();
    var way := if isList then ListValue(f) else MethodValue(f);
    o.Set("m", way);
    ghost var h0 := Snapshot({o, f});
    ghost var k, world, created;
    assert h0 == map[o := map["m" := way], f := map[]];
    OnTheWay(h0, o, f, way);
    ok, world, k, created := o.SetNS("m.x", Scalar(id), {o, f});
    MethodHidesValue(h0, Snapshot(world), o, f, way, k, created, id);
    written := f.Get("x");
    answer := o.GetNS("m.x", world);
  }

  lemma OnTheWay(h: Heap, o: BoundObject, f: BoundObject, way: Value)
    requires way in {MethodValue(f), ListValue(f)} && o != f && h == map[o := map["m" := way], f := map[]]
    ensures Tokens("m.x", ".") == ["m", "x"] && Closed(h) && Passable(h, o, ["m", "x"])
  {
    TwoSegments();
    var path := ["m", "x"];
    assert path[..1] == ["m"] && path[..1][..0] == [];
    assert ValueAt(h, o, path[..1]) == way;
  }

  lemma SameKeys(h0: Heap, world: set<BoundObject>, world': set<BoundObject>)
    requires Snapshot(world') == h0 && h0.Keys == world
    ensures world' == world && Snapshot(world) == h0
  {
    assert Snapshot(world').Keys == world';
  }

  ghost function Snapshot(world: set<BoundObject>): Heap
    reads world
  {
    map o | o in world :: o.properties
  }
}
