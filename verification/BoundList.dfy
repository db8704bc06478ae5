/**
 StaticBoundList: a list of values stored in an object whose property names are the decimal
 indices, plus a length.
 */
module BoundList {
  import opened Decimal
  import opened Versions

  datatype Value = Undefined | Defined(id: int)

  type Properties = map<string, Value>

  /** The value a property reads as. */
  function Lookup(p: Properties, name: string): Value {
    if name in p then p[name] else Undefined
  }

  /** The first n elements of the list stored in p. */
  function View(p: Properties, n: nat): (r: seq<Value>)
    ensures |r| == n && forall i :: 0 <= i < n ==> r[i] == Lookup(p, IntToChars(i))
  {
    seq(n, i requires 0 <= i < n => Lookup(p, IntToChars(i)))
  }

  function Undefineds(n: nat): seq<Value> { seq(n, _ => Undefined) }

  function Filled(s: seq<Value>, n: nat): seq<Value> { s + Undefineds(n) }

  lemma FilledNext(s: seq<Value>, n: nat)
    ensures Filled(s, n + 1) == Filled(s, n) + [Undefined]
  {
    assert Undefineds(n + 1) == Undefineds(n) + [Undefined];
  }

  /** No property is named like an index at or beyond the length. */
  ghost predicate NoStale(p: Properties, length: nat) {
    forall i: nat :: length <= i ==> IntToChars(i) !in p
  }

  /** Writing index k changes element k of every view and no other. */
  lemma ViewUpdate(p: Properties, n: nat, k: nat, v: Value)
    ensures View(p[IntToChars(k) := v], n) == if k < n then View(p, n)[k := v] else View(p, n)
  {
    forall i | 0 <= i < n
      ensures Lookup(p[IntToChars(k) := v], IntToChars(i)) == if i == k then v else Lookup(p, IntToChars(i))
    {
      if i != k && IntToChars(i) == IntToChars(k) {
        PrintInjective(i, k);
      }
    }
  }

  /** A property that is not named like an index is no element. */
  lemma ViewIgnores(p: Properties, q: Properties, n: nat, name: string)
    requires !Canonical(name)
    requires forall other :: other != name ==> Lookup(q, other) == Lookup(p, other)
    ensures View(q, n) == View(p, n)
  {
    forall i | 0 <= i < n
      ensures IntToChars(i) != name
    {
      NumberOfPrinted(i);
    }
  }

  /** What the shift loop of Remove has done when it reaches i: elements index..i hold their successors. */
  ghost predicate Shifted(p: Properties, q: Properties, index: nat, i: nat, length: nat)
  {
    && (forall k: nat :: k < length && k < index ==> Lookup(q, IntToChars(k)) == Lookup(p, IntToChars(k)))
    && (forall k: nat :: index <= k < i ==> Lookup(q, IntToChars(k)) == Lookup(p, IntToChars(k + 1)))
    && (forall k: nat :: i < k < length ==> Lookup(q, IntToChars(k)) == Lookup(p, IntToChars(k)))
  }

  lemma ShiftOne(p: Properties, q: Properties, index: nat, i: nat, length: nat)
    requires index <= i && i + 1 < length && Shifted(p, q, index, i, length)
    ensures Shifted(p, q[IntToChars(i) := Lookup(q, IntToChars(i + 1))], index, i + 1, length)
  {
    var q' := q[IntToChars(i) := Lookup(q, IntToChars(i + 1))];
    forall k: nat | k < length && k != i
      ensures Lookup(q', IntToChars(k)) == Lookup(q, IntToChars(k))
    {
      if IntToChars(k) == IntToChars(i) {
        PrintInjective(k, i);
      }
    }
  }

  lemma UnsetShifts(p: Properties, index: nat, length: nat)
    ensures Shifted(p, p - {IntToChars(index)}, index, index, length)
    ensures SameKeysFrom(p, p - {IntToChars(index)}, index, index)
  {
    WriteKeepsOthers(p, index, Undefined);
    forall k: nat | k != index
      ensures IntToChars(k) != IntToChars(index)
    {
      if IntToChars(k) == IntToChars(index) {
        PrintInjective(k, index);
      }
    }
  }

  /** From index i on the same indices are present, except that `index` itself was unset. */
  ghost predicate SameKeysFrom(p: Properties, q: Properties, index: nat, i: nat) {
    && (forall k: nat :: k >= i && k != index ==>
          (IntToChars(k) in q <==> IntToChars(k) in p) && Lookup(q, IntToChars(k)) == Lookup(p, IntToChars(k)))
    && (i == index ==> IntToChars(index) !in q)
    && SameOthers(p, q)
  }

  /** Properties whose names are no indices are the same. */
  ghost predicate SameOthers(p: Properties, q: Properties) {
    forall name :: !Canonical(name) ==> (name in q <==> name in p) && Lookup(q, name) == Lookup(p, name)
  }

  lemma WriteKeepsOthers(p: Properties, i: nat, v: Value)
    ensures SameOthers(p, p[IntToChars(i) := v])
    ensures SameOthers(p, p - {IntToChars(i)})
  {
    NumberOfPrinted(i);
  }

  lemma WriteKeepsLaterKeys(p: Properties, q: Properties, index: nat, i: nat, v: Value)
    requires index <= i && SameKeysFrom(p, q, index, i)
    ensures SameKeysFrom(p, q[IntToChars(i) := v], index, i + 1)
  {
    WriteKeepsOthers(q, i, v);
    forall k: nat | k > i
      ensures IntToChars(k) != IntToChars(i)
    {
      if IntToChars(k) == IntToChars(i) {
        PrintInjective(k, i);
      }
    }
  }

  lemma StaleAfterRemove(p: Properties, q: Properties, index: nat, last: nat)
    requires index <= last && SameKeysFrom(p, q, index, last) && NoStale(p, last + 1)
    ensures NoStale(q, last) <==> index == last || IntToChars(last) !in p
  {
  }

  lemma NoStaleAfterWrite(p: Properties, length: nat, index: nat, v: Value)
    requires NoStale(p, length)
    ensures NoStale(p[IntToChars(index) := v], if index < length then length else index + 1)
  {
    forall i: nat | i > index
      ensures IntToChars(i) != IntToChars(index)
    {
      if IntToChars(i) == IntToChars(index) {
        PrintInjective(i, index);
      }
    }
  }

  /** Every index of the gap reads as Undefined. */
  ghost predicate GapEmpty(p: Properties, length: nat, index: nat) {
    forall k: nat :: length <= k < index ==> Lookup(p, IntToChars(k)) == Undefined
  }

  lemma FillUp(p: Properties, length: nat, index: nat)
    requires length <= index
    ensures View(p, index) == View(p, length) + Undefineds(index - length) <==> GapEmpty(p, length, index)
  {
    var filled := View(p, length) + Undefineds(index - length);
    if View(p, index) == filled {
      forall k: nat | length <= k < index
        ensures Lookup(p, IntToChars(k)) == Undefined
      {
        assert View(p, index)[k] == filled[k];
      }
    }
  }

  lemma AppendInjective(a: seq<Value>, b: seq<Value>, v: Value)
    ensures a + [v] == b + [v] <==> a == b
  {
    if a + [v] == b + [v] {
      assert (a + [v])[..|a|] == a && (b + [v])[..|b|] == b;
    }
  }

  /** When the shift loop is through, one element is gone. */
  lemma ShiftedView(p: Properties, q: Properties, index: nat, length: nat)
    requires index < length && Shifted(p, q, index, length - 1, length)
    ensures View(q, length - 1) == View(p, length)[..index] + View(p, length)[index + 1..]
  {
  }

  /** name comes before every one of these. */
  predicate AllAfter(name: string, names: set<string>) {
    forall other :: other in names ==> CompareText(name, other) < 0
  }

  predicate NoneBefore(name: string, names: set<string>) {
    forall other :: other in names ==> CompareText(name, other) <= 0
  }

  lemma {:induction false} LeastName(names: set<string>) returns (least: string)
    requires names != {}
    ensures least in names && NoneBefore(least, names)
    decreases |names|
  {
    var name :| name in names;
    least := name;
    if names != {name} {
      var other := LeastName(names - {name});
      TextOrder(name, other, name);
      least := if CompareText(name, other) <= 0 then name else other;
      forall n | n in names
        ensures CompareText(least, n) <= 0
      {
        TextOrder(name, other, n);
        TextOrder(n, n, n);
      }
    } else {
      TextOrder(name, name, name);
    }
  }

  lemma FirstIsBefore(name: string, names: set<string>)
    requires NoneBefore(name, names)
    ensures AllAfter(name, names - {name})
  {
    forall other | other in names - {name}
      ensures CompareText(name, other) < 0
    {
      TextOrder(name, other, name);
    }
  }

  class StaticBoundObject {
    var properties: Properties

    constructor ()
      ensures properties == map[]
    {
      properties := map[];
    }

    function Get(name: string): Value
      reads this
    {
      Lookup(properties, name)
    }

    /** The names in the order of std::map: every property exactly once, sorted. */
    method GetPropertyNames() returns (names: seq<string>)
      ensures forall name :: name in names <==> name in properties
      ensures forall i, k :: 0 <= i < k < |names| ==> TextBefore(names[i], names[k])
    {
      names := [];
      var left := properties.Keys;
      while left != {}
        invariant left <= properties.Keys && forall name :: name in properties <==> name in names || name in left
        invariant forall i :: 0 <= i < |names| ==> AllAfter(names[i], left)
        invariant forall i, k :: 0 <= i < k < |names| ==> CompareText(names[i], names[k]) < 0
        decreases |left|
      {
        ghost var least := LeastName(left);
        var name :| name in left && NoneBefore(name, left);
        FirstIsBefore(name, left);
        names := names + [name];
        left := left - {name};
      }
      forall i, k | 0 <= i < k < |names|
        ensures TextBefore(names[i], names[k])
      {
        TextCompared(names[i], names[k]);
      }
    }

    method UnSet(name: string)
      modifies this
      ensures properties == old(properties) - {name}
    {
      if name in properties {
        properties := properties - {name};
      }
    }

    method Set(name: string, value: Value)
      modifies this
      ensures properties == old(properties)[name := value]
    {
      UnSet(name);
      properties := properties[name := value];
    }
  }

  /** KList::IsInt. */
  method IsInt(name: string) returns (r: bool)
    ensures r <==> forall i :: 0 <= i < |name| ==> '0' <= name[i] <= '9'
    ensures r <==> AllDigits(name)
  {
    for i := 0 to |name|
      invariant forall k :: 0 <= k < i ==> IsDigit(name[k])
    {
      if !IsDigit(name[i]) {
        return false;
      }
    }
    return true;
  }

  class StaticBoundList {
    const backing: StaticBoundObject
    var length: nat

    /** The sequence this list stands for. */
    ghost function Contents(): seq<Value>
      reads this, backing
    {
      View(backing.properties, length)
    }

    constructor ()
      ensures fresh(backing) && backing.properties == map[] && length == 0
      ensures Contents() == [] && NoStale(backing.properties, length)
    {
      backing := new StaticBoundObject();
      length := 0;
    }

    function Size(): nat
      reads this
    {
      length
    }

    function At(index: nat): Value
      reads backing
    {
      backing.Get(IntToChars(index))
    }

    method Append(value: Value)
      modifies this, backing
      ensures Contents() == old(Contents()) + [value]
      ensures backing.properties == old(backing.properties)[IntToChars(old(length)) := value]
      ensures old(NoStale(backing.properties, length)) ==> NoStale(backing.properties, length)
    {
      ViewUpdate(backing.properties, length, length, value);
      backing.Set(IntToChars(length), value);
      length := length + 1;
      if NoStale(old(backing.properties), old(length)) {
        NoStaleAfterWrite(old(backing.properties), old(length), old(length), value);
      }
    }

    /** Beyond the end the list is filled up with whatever the indices in between read as; this is
        Undefined for all of them exactly if none of them was left behind by an earlier Remove. */
    method SetAt(index: nat, value: Value)
      modifies this, backing
      ensures backing.properties == old(backing.properties)[IntToChars(index) := value]
      ensures length == if index < old(length) then old(length) else index + 1
      ensures index < old(length) ==> Contents() == old(Contents())[index := value]
      ensures index >= old(length) ==> Contents() == View(old(backing.properties), index) + [value]
      ensures index >= old(length) ==>
        (Contents() == old(Contents()) + Undefineds(index - old(length)) + [value] <==>
         GapEmpty(old(backing.properties), old(length), index))
      ensures At(index) == value
      ensures old(NoStale(backing.properties, length)) ==> NoStale(backing.properties, length)
    {
      ViewUpdate(backing.properties, length, index, value);
      ViewUpdate(backing.properties, index, index, value);
      backing.Set(IntToChars(index), value);
      if index >= length {
        length := index + 1;
        FillUp(old(backing.properties), old(length), index);
        AppendInjective(View(old(backing.properties), index), old(Contents()) + Undefineds(index - old(length)), value);
        assert Contents()[..index] == View(old(backing.properties), index);
      }
      if NoStale(old(backing.properties), old(length)) {
        NoStaleAfterWrite(old(backing.properties), old(length), index, value);
      }
    }

    /** The shift loop of Remove. */
    method ShiftDown(index: nat, ghost p: Properties)
      requires index < length
      requires Shifted(p, backing.properties, index, index, length) && SameKeysFrom(p, backing.properties, index, index)
      modifies this, backing
      ensures length == old(length)
      ensures Shifted(p, backing.properties, index, length - 1, length)
      ensures SameKeysFrom(p, backing.properties, index, length - 1)
    {
      var i := index;
      while i + 1 < length
        invariant index <= i < length && length == old(length)
        invariant Shifted(p, backing.properties, index, i, length) && SameKeysFrom(p, backing.properties, index, i)
        decreases length - i
      {
        var next := At(i + 1);
        ShiftOne(p, backing.properties, index, i, length);
        WriteKeepsLaterKeys(p, backing.properties, index, i, next);
        SetAt(i, next);
        i := i + 1;
      }
    }

    /** Deleting shifts the rest down.  It leaves a stale property behind unless the last element goes. */
    method Remove(index: nat) returns (removed: bool)
      modifies this, backing
      ensures removed == (index < old(length))
      ensures !removed ==> length == old(length) && backing.properties == old(backing.properties)
      ensures removed ==> length == old(length) - 1
      ensures removed ==> Contents() == old(Contents())[..index] + old(Contents())[index + 1..]
      ensures SameOthers(old(backing.properties), backing.properties)
      ensures removed && index < old(length) - 1 ==> At(old(length) - 1) == old(Contents())[old(length) - 1]
      ensures removed && old(NoStale(backing.properties, length)) ==>
        (NoStale(backing.properties, length) <==>
         index == old(length) - 1 || IntToChars(old(length) - 1) !in old(backing.properties))
    {
      if index >= length {
        return false;
      }
      ghost var p := backing.properties;
      backing.UnSet(IntToChars(index));
      UnsetShifts(p, index, length);
      ShiftDown(index, p);
      ShiftedView(p, backing.properties, index, length);
      length := length - 1;
      if NoStale(p, old(length)) {
        StaleAfterRemove(p, backing.properties, index, length);
      }
      return true;
    }

    /** Set by name.  The C function atoi is defined for values below 2^31 only. */
    method Set(name: string, value: Value)
      requires AllDigits(name) ==> Number(name) < 0x8000_0000
      modifies this, backing
      ensures AllDigits(name) ==>
        && backing.properties == old(backing.properties)[IntToChars(Number(name)) := value]
        && length == (if Number(name) < old(length) then old(length) else Number(name) + 1)
        && At(Number(name)) == value
      ensures !AllDigits(name) ==>
        Contents() == old(Contents()) && backing.properties == old(backing.properties)[name := value]
      ensures Get(name) == value <==> Canonical(name) || !AllDigits(name) || old(Get(name)) == value
    {
      CanonicalIffPrinted(name);
      var isInt := IsInt(name);
      if isInt {
        SetAt(Number(name), value);
      } else {
        ViewIgnores(backing.properties, backing.properties[name := value], length, name);
        backing.Set(name, value);
      }
    }

    function Get(name: string): Value
      reads backing
    {
      backing.Get(name)
    }

    /** By canonical names Get and At are the same. */
    lemma GetIsAt(name: string)
      requires Canonical(name)
      ensures Get(name) == At(Number(name))
    {
      CanonicalIffPrinted(name);
    }

    /** The shrinking loop of KList::ResizeTo. */
    method ShrinkTo(size: nat)
      requires size <= length
      modifies this, backing
      ensures Contents() == old(Contents())[..size]
      ensures old(NoStale(backing.properties, length)) ==> NoStale(backing.properties, length)
    {
      while size < Size()
        invariant size <= length <= old(length)
        invariant Contents() == old(Contents())[..length]
        invariant old(NoStale(backing.properties, length)) ==> NoStale(backing.properties, length)
        decreases length
      {
        ghost var before := Contents();
        var _ := Remove(Size() - 1);
        assert Contents() == before[..length];
      }
    }

    /** The growing loop. */
    method GrowTo(size: nat)
      requires length <= size
      modifies this, backing
      ensures Contents() == Filled(old(Contents()), size - old(length))
      ensures old(NoStale(backing.properties, length)) ==> NoStale(backing.properties, length)
    {
      while size > Size()
        invariant old(length) <= length <= size
        invariant Contents() == Filled(old(Contents()), length - old(length))
        invariant old(NoStale(backing.properties, length)) ==> NoStale(backing.properties, length)
        decreases size - length
      {
        FilledNext(old(Contents()), length - old(length));
        Append(Undefined);
      }
    }

    /** KList::ResizeTo. */
    method ResizeTo(size: nat)
      modifies this, backing
      ensures Contents() == Apply(Resize(size), old(Contents()))
      ensures Size() == size
      ensures forall i :: 0 <= i < size ==> Contents()[i] == if i < old(length) then old(Contents())[i] else Undefined
      ensures old(NoStale(backing.properties, length)) ==> NoStale(backing.properties, length)
    {
      if size < Size() {
        ShrinkTo(size);
      } else if size > Size() {
        GrowTo(size);
      }
    }

    method PerformOne(op: Op)
      requires op.Put? ==> op.index <= length
      modifies this, backing
      ensures Contents() == Apply(op, old(Contents()))
    {
      match op
      case Push(v) => Append(v);
      case Put(k, v) => SetAt(k, v);
      case Delete(k) => var _ := Remove(k);
      case Resize(n) => ResizeTo(n);
    }

    /** Any sequence of operations, with writes at most one past the end, acts as on a plain sequence. */
    method Perform(ops: seq<Op>)
      requires Applicable(ops, Contents())
      modifies this, backing
      ensures Contents() == ApplyAll(ops, old(Contents()))
    {
      for i := 0 to |ops|
        invariant Applicable(ops[i..], Contents())
        invariant ApplyAll(ops[i..], Contents()) == ApplyAll(ops, old(Contents()))
      {
        assert ops[i..][1..] == ops[i + 1..] && ops[i..][0] == ops[i];
        PerformOne(ops[i]);
      }
    }
  }

  datatype Op = Push(v: Value) | Put(index: nat, v: Value) | Delete(index: nat) | Resize(size: nat)

  /** The operations on a plain sequence. */
  function Apply(op: Op, s: seq<Value>): seq<Value> {
    match op
    case Push(v) => s + [v]
    case Put(k, v) => if k < |s| then s[k := v] else s + [v]
    case Delete(k) => if k < |s| then s[..k] + s[k + 1..] else s
    case Resize(n) => if n <= |s| then s[..n] else s + Undefineds(n - |s|)
  }

  /** Pushing adds at the end; writing changes one element, or adds one just behind the end; deleting closes the gap; and
      resizing cuts off or fills up with Undefined. */
  lemma OperationsByIndex(s: seq<Value>, k: nat, v: Value, i: nat)
    ensures |Apply(Push(v), s)| == |s| + 1 && Apply(Push(v), s)[|s|] == v && Apply(Push(v), s)[..|s|] == s
    ensures k < |s| && i < |s| ==> |Apply(Put(k, v), s)| == |s| && Apply(Put(k, v), s)[i] == if i == k then v else s[i]
    ensures k == |s| ==> Apply(Put(k, v), s) == Apply(Push(v), s)
    ensures k < |s| ==> |Apply(Delete(k), s)| == |s| - 1
    ensures k < |s| && i < |s| - 1 ==> Apply(Delete(k), s)[i] == if i < k then s[i] else s[i + 1]
    ensures k >= |s| ==> Apply(Delete(k), s) == s
    ensures |Apply(Resize(k), s)| == k && (i < k ==> Apply(Resize(k), s)[i] == if i < |s| then s[i] else Undefined)
  {
  }

  /** Operations are applied in order. */
  lemma {:induction false} ApplyInOrder(ops: seq<Op>, op: Op, s: seq<Value>)
    ensures ApplyAll([], s) == s && ApplyAll(ops + [op], s) == Apply(op, ApplyAll(ops, s))
    decreases |ops|
  {
    if ops == [] {
      assert ops + [op] == [op] && [op][1..] == [];
    } else {
      assert (ops + [op])[1..] == ops[1..] + [op];
      ApplyInOrder(ops[1..], op, Apply(ops[0], s));
    }
  }

  function ApplyAll(ops: seq<Op>, s: seq<Value>): seq<Value> {
    if ops == [] then s else ApplyAll(ops[1..], Apply(ops[0], s))
  }

  /** No write lands more than one past the end. */
  predicate Applicable(ops: seq<Op>, s: seq<Value>) {
    ops == [] || ((ops[0].Put? ==> ops[0].index <= |s|) && Applicable(ops[1..], Apply(ops[0], s)))
  }

  /** A write further out is different: after deleting the head of [1, 2], writing 3 at index 2 brings the
      deleted list's last element back instead of filling up with Undefined. */
  method StaleElementReappears() returns (l: StaticBoundList)
    ensures l.Contents() == [Defined(2), Defined(2), Defined(3)]
  {
    l := new StaticBoundList();
    l.Append(Defined(1));
    l.Append(Defined(2));
    var _ := l.Remove(0);
    assert l.Contents() == [Defined(2)] && l.At(1) == Defined(2);
    l.SetAt(2, Defined(3));
    assert l.Contents()[0] == Defined(2);
  }

  /** The empty name passes for an integer: setting it writes index 0 and cannot be read back. */
  method EmptyNameWritesIndexZero() returns (l: StaticBoundList)
    ensures l.Contents() == [Defined(5)] && l.Get("") == Undefined
  {
    l := new StaticBoundList();
    NumberOfPrinted(0);
    l.Set("", Defined(5));
    assert l.Contents()[0] == Defined(5);
  }
}
