/** Event listeners and event dispatch: KEventObject and EventListener. */
module Events {
  import opened Wrappers

  /** Objects are known by their address, callbacks up to equality. */
  type ObjectId = int
  type Callback = int

  const ALL := "all"

  datatype Listener = Listener(eventName: string, callback: Callback, id: nat) {
    predicate Hears(name: string) { name == eventName || eventName == ALL }

    /** The event name it is given plays no part: the code compares it with itself. */
    predicate Matches(name: string, listenerId: nat, wanted: Option<Callback>) {
      (wanted.None? && listenerId == 0) || wanted == Some(callback) || (listenerId != 0 && listenerId == id)
    }
  }

  datatype Registration = Registration(target: ObjectId, eventName: string, callback: Callback)

  /** What a callback may ask of any object. */
  datatype Command =
    | AddListener(registration: Registration)
    | RemoveListener(target: ObjectId, eventName: string, id: nat, wanted: Option<Callback>)
  {
    predicate Removes(o: ObjectId, l: Listener) {
      RemoveListener? && target == o && l.Matches(eventName, id, wanted)
    }
  }

  /** What a callback does to the event and which listeners it adds and removes. */
  datatype Reaction = Reaction(stops: bool, prevents: bool, commands: seq<Command>)

  /** Callbacks may react differently each time; the argument is everything delivered so far, the current
      delivery last. */
  type Behaviour = seq<Listener> -> Reaction

  /** The static state: the last listener id and the listeners of each object. */
  datatype Registry = Registry(currentId: nat, listeners: map<ObjectId, seq<Listener>>) {
    function Of(o: ObjectId): seq<Listener> { if o in listeners then listeners[o] else [] }

    function Add(r: Registration): Registry {
      Registry(currentId + 1, listeners[r.target := Of(r.target) + [Listener(r.eventName, r.callback, currentId + 1)]])
    }

    function Remove(o: ObjectId, name: string, id: nat, wanted: Option<Callback>): Registry {
      Registry(currentId, listeners[o := Without(Of(o), name, id, wanted)])
    }

    function Perform(c: Command): Registry {
      match c
      case AddListener(r) => Add(r)
      case RemoveListener(o, name, id, wanted) => Remove(o, name, id, wanted)
    }

    function PerformAll(commands: seq<Command>): Registry
      decreases |commands|
    {
      if commands == [] then this else Perform(commands[0]).PerformAll(commands[1..])
    }

    /** The state after some deliveries. */
    function After(log: seq<Listener>, deliveries: seq<Listener>, react: Behaviour): Registry
      decreases |deliveries|
    {
      if deliveries == [] then this
      else
        var now := log + [deliveries[0]];
        PerformAll(react(now).commands).After(now, deliveries[1..], react)
    }
  }

  // ---------------------------------------------------------------- listener ids

  ghost predicate Rising(ls: seq<Listener>) {
    forall i, j :: 0 <= i < j < |ls| ==> ls[i].id < ls[j].id
  }

  ghost predicate Below(ls: seq<Listener>, bound: nat) {
    forall i :: 0 <= i < |ls| ==> 0 < ls[i].id <= bound
  }

  ghost predicate Apart(ls: seq<Listener>, ms: seq<Listener>) {
    forall i, j :: 0 <= i < |ls| && 0 <= j < |ms| ==> ls[i].id != ms[j].id
  }

  /** Ids are handed out upwards, and no two listeners share one, whatever objects they belong to. */
  ghost predicate IdsOk(reg: Registry) {
    && (forall o :: Rising(reg.Of(o)) && Below(reg.Of(o), reg.currentId))
    && (forall o, p :: o != p ==> Apart(reg.Of(o), reg.Of(p)))
  }

  /** The longer list only has more listeners at its end, with ids never given before. */
  ghost predicate Longer(before: seq<Listener>, after: seq<Listener>, bound: nat) {
    |before| <= |after| && after[..|before|] == before && forall i :: |before| <= i < |after| ==> after[i].id > bound
  }

  ghost predicate Extends(before: Registry, after: Registry) {
    before.currentId <= after.currentId && forall o :: Longer(before.Of(o), after.Of(o), before.currentId)
  }

  lemma NewIdIsHighest(ls: seq<Listener>, l: Listener, bound: nat)
    requires Rising(ls) && Below(ls, bound) && l.id == bound + 1
    ensures Rising(ls + [l]) && Below(ls + [l], bound + 1) && Longer(ls, ls + [l], bound)
    ensures forall ms :: Apart(ls, ms) && Below(ms, bound) ==> Apart(ls + [l], ms) && Apart(ms, ls + [l])
  {
  }

  /** What addition leaves alone, and where it adds. */
  lemma AddAt(reg: Registry, r: Registration, o: ObjectId)
    ensures reg.Add(r).Of(o) ==
      if o == r.target then reg.Of(o) + [Listener(r.eventName, r.callback, reg.currentId + 1)] else reg.Of(o)
  {
  }

  lemma AddKeepsObject(reg: Registry, r: Registration, after: Registry, o: ObjectId)
    requires IdsOk(reg) && after == reg.Add(r)
    ensures Rising(after.Of(o)) && Below(after.Of(o), after.currentId) && Longer(reg.Of(o), after.Of(o), reg.currentId)
    ensures forall p :: o != p ==> Apart(after.Of(o), after.Of(p))
  {
    var l := Listener(r.eventName, r.callback, reg.currentId + 1);
    assert Rising(reg.Of(o)) && Below(reg.Of(o), reg.currentId);
    assert Rising(reg.Of(r.target)) && Below(reg.Of(r.target), reg.currentId);
    NewIdIsHighest(reg.Of(r.target), l, reg.currentId);
    AddAt(reg, r, o);
    forall p | o != p
      ensures Apart(after.Of(o), after.Of(p))
    {
      AddAt(reg, r, p);
      assert Apart(reg.Of(o), reg.Of(p)) && Apart(reg.Of(p), reg.Of(o)) && Below(reg.Of(p), reg.currentId);
    }
  }

  lemma AddKeepsIds(reg: Registry, r: Registration)
    requires IdsOk(reg)
    ensures IdsOk(reg.Add(r)) && Extends(reg, reg.Add(r))
  {
    forall o
      ensures Rising(reg.Add(r).Of(o)) && Below(reg.Add(r).Of(o), reg.currentId + 1)
      ensures Longer(reg.Of(o), reg.Add(r).Of(o), reg.currentId)
      ensures forall p :: o != p ==> Apart(reg.Add(r).Of(o), reg.Add(r).Of(p))
    {
      AddKeepsObject(reg, r, reg.Add(r), o);
    }
  }

  // ---------------------------------------------------------------- removal

  /** The listeners that stay, in order. */
  function Without(ls: seq<Listener>, name: string, id: nat, wanted: Option<Callback>): seq<Listener> {
    if ls == [] then []
    else (if ls[0].Matches(name, id, wanted) then [] else [ls[0]]) + Without(ls[1..], name, id, wanted)
  }

  lemma {:induction false} WithoutNothing(ls: seq<Listener>, name: string, id: nat)
    requires id != 0 && forall i :: 0 <= i < |ls| ==> ls[i].id != id
    ensures Without(ls, name, id, None) == ls
  {
    if ls != [] {
      WithoutNothing(ls[1..], name, id);
    }
  }

  /** A non-zero id removes that one listener and nothing else. */
  lemma {:induction false} WithoutId(ls: seq<Listener>, name: string, k: nat)
    requires k < |ls| && ls[k].id != 0 && Rising(ls)
    ensures Without(ls, name, ls[k].id, None) == ls[..k] + ls[k + 1..]
  {
    if k == 0 {
      WithoutNothing(ls[1..], name, ls[0].id);
    } else {
      WithoutId(ls[1..], name, k - 1);
      assert [ls[0]] + (ls[1..][..k - 1] + ls[1..][k..]) == ls[..k] + ls[k + 1..];
    }
  }

  /** What removal by id is for. */
  function OthersThan(ls: seq<Listener>, id: nat): seq<Listener> {
    if ls == [] then [] else (if ls[0].id == id then [] else [ls[0]]) + OthersThan(ls[1..], id)
  }

  /** Removal by id removes the listener of that id, and only it, exactly if the id is not zero; the id zero removes
      all listeners there are. */
  lemma {:induction false} RemovalById(ls: seq<Listener>, name: string, id: nat, bound: nat)
    requires Below(ls, bound)
    ensures Without(ls, name, id, None) == OthersThan(ls, id) <==> id != 0 || ls == []
    ensures id == 0 ==> Without(ls, name, id, None) == [] && OthersThan(ls, id) == ls
  {
    if ls != [] {
      assert 0 < ls[0].id;
      assert Below(ls[1..], bound) by {
        assert forall i :: 0 <= i < |ls| - 1 ==> ls[1..][i] == ls[i + 1];
      }
      RemovalById(ls[1..], name, id, bound);
    }
  }

  /** What removal under a name is for: the listeners of other names stay. */
  function WithoutNamed(ls: seq<Listener>, name: string, id: nat, wanted: Option<Callback>): seq<Listener> {
    if ls == [] then []
    else
      (if ls[0].eventName == name && ls[0].Matches(name, id, wanted) then [] else [ls[0]])
      + WithoutNamed(ls[1..], name, id, wanted)
  }

  lemma {:induction false} NothingGained(ls: seq<Listener>, name: string, id: nat, wanted: Option<Callback>)
    ensures |Without(ls, name, id, wanted)| <= |WithoutNamed(ls, name, id, wanted)|
  {
    if ls != [] {
      NothingGained(ls[1..], name, id, wanted);
    }
  }

  /** Removal does what it is for if and only if every listener with that callback or id has been registered under
      that very name. */
  lemma {:induction false} RemovalUnderName(ls: seq<Listener>, name: string, id: nat, wanted: Option<Callback>)
    ensures Without(ls, name, id, wanted) == WithoutNamed(ls, name, id, wanted) <==>
      forall i :: 0 <= i < |ls| && ls[i].Matches(name, id, wanted) ==> ls[i].eventName == name
  {
    if ls != [] {
      RemovalUnderName(ls[1..], name, id, wanted);
      NothingGained(ls[1..], name, id, wanted);
      assert forall i :: 0 < i < |ls| ==> ls[i] == ls[1..][i - 1];
      if ls[0].Matches(name, id, wanted) && ls[0].eventName != name {
        assert |WithoutNamed(ls, name, id, wanted)| > |Without(ls, name, id, wanted)|;
      } else {
        var kept := if ls[0].Matches(name, id, wanted) then [] else [ls[0]];
        assert Without(ls, name, id, wanted)[|kept|..] == Without(ls[1..], name, id, wanted);
        assert WithoutNamed(ls, name, id, wanted)[|kept|..] == WithoutNamed(ls[1..], name, id, wanted);
      }
    }
  }

  /** One callback registered under two names: removing it under one of them removes it under both. */
  lemma BothNamesRemoved()
    ensures var ls := [Listener("open", 7, 2), Listener("close", 7, 3)];
      Without(ls, "open", 0, Some(7)) == [] && WithoutNamed(ls, "open", 0, Some(7)) == [ls[1]]
  {
    var ls := [Listener("open", 7, 2), Listener("close", 7, 3)];
    assert ls[1..] == [ls[1]] && [ls[1]][1..] == [];
    assert |"open"| != |"close"|;
  }

  /** What stays: with a callback, the listeners of other callbacks and other ids; without one, those of other ids, and
      none at all if the id is zero. */
  lemma {:induction false} WithoutKeepsTheRest(ls: seq<Listener>, name: string, id: nat, wanted: Option<Callback>)
    requires Rising(ls)
    ensures forall l :: l in Without(ls, name, id, wanted) <==>
      match wanted
      case Some(callback) => l in ls && l.callback != callback && (id != 0 ==> l.id != id)
      case None => l in ls && id != 0 && l.id != id
    ensures forall l :: l in Without(ls, name, id, wanted) <==> l in ls && !l.Matches(name, id, wanted)
    ensures Rising(Without(ls, name, id, wanted))
  {
    if ls != [] {
      WithoutKeepsTheRest(ls[1..], name, id, wanted);
      var w := Without(ls[1..], name, id, wanted);
      forall i | 0 <= i < |w|
        ensures ls[0].id < w[i].id
      {
        assert w[i] in ls[1..];
      }
    }
  }

  /** The list so far: the first i listeners stay, the others have yet to be looked at. */
  ghost predicate Erasing(ls: seq<Listener>, i: nat, name: string, id: nat, wanted: Option<Callback>, goal: seq<Listener>) {
    i <= |ls| && ls[..i] + Without(ls[i..], name, id, wanted) == goal
  }

  lemma EraseOne(ls: seq<Listener>, i: nat, name: string, id: nat, wanted: Option<Callback>, goal: seq<Listener>)
    requires i < |ls| && Erasing(ls, i, name, id, wanted, goal)
    ensures if ls[i].Matches(name, id, wanted) then Erasing(ls[..i] + ls[i + 1..], i, name, id, wanted, goal)
            else Erasing(ls, i + 1, name, id, wanted, goal)
  {
    var rest := ls[i + 1..];
    assert ls[i..][1..] == rest;
    if ls[i].Matches(name, id, wanted) {
      assert (ls[..i] + rest)[..i] == ls[..i] && (ls[..i] + rest)[i..] == rest;
    } else {
      assert ls[..i + 1] == ls[..i] + [ls[i]];
    }
  }

  /** What holds of the ids of a list holds of those of a part of it. */
  lemma PartOfList(fewer: seq<Listener>, ls: seq<Listener>, ms: seq<Listener>, bound: nat)
    requires Below(ls, bound) && Apart(ls, ms) && forall l :: l in fewer ==> l in ls
    ensures Below(fewer, bound) && Apart(fewer, ms) && Apart(ms, fewer)
  {
    forall i | 0 <= i < |fewer|
      ensures 0 < fewer[i].id <= bound && forall j :: 0 <= j < |ms| ==> fewer[i].id != ms[j].id
    {
      assert fewer[i] in ls;
    }
  }

  lemma FewerKeepsObject(reg: Registry, o: ObjectId, fewer: seq<Listener>, after: Registry, p: ObjectId)
    requires IdsOk(reg) && Rising(fewer) && forall l :: l in fewer ==> l in reg.Of(o)
    requires after == Registry(reg.currentId, reg.listeners[o := fewer])
    ensures Rising(after.Of(p)) && Below(after.Of(p), after.currentId)
    ensures forall q :: p != q ==> Apart(after.Of(p), after.Of(q))
  {
    assert Rising(reg.Of(p)) && Below(reg.Of(p), reg.currentId) && Below(reg.Of(o), reg.currentId);
    PartOfList(fewer, reg.Of(o), [], reg.currentId);
    forall q | p != q
      ensures Apart(after.Of(p), after.Of(q))
    {
      assert Apart(reg.Of(p), reg.Of(q)) && Apart(reg.Of(q), reg.Of(p));
      if p == o {
        PartOfList(fewer, reg.Of(o), reg.Of(q), reg.currentId);
      } else if q == o {
        PartOfList(fewer, reg.Of(o), reg.Of(p), reg.currentId);
      }
    }
  }

  lemma FewerKeepsIds(reg: Registry, o: ObjectId, fewer: seq<Listener>, after: Registry)
    requires IdsOk(reg) && Rising(fewer) && forall l :: l in fewer ==> l in reg.Of(o)
    requires after == Registry(reg.currentId, reg.listeners[o := fewer])
    ensures IdsOk(after)
  {
    forall p
      ensures Rising(after.Of(p)) && Below(after.Of(p), after.currentId)
      ensures forall q :: p != q ==> Apart(after.Of(p), after.Of(q))
    {
      FewerKeepsObject(reg, o, fewer, after, p);
    }
  }

  /** Whatever is there afterwards was there before or is new: an id is never given twice. */
  ghost predicate Younger(before: Registry, after: Registry) {
    && before.currentId <= after.currentId
    && forall o, l :: l in after.Of(o) ==> l in before.Of(o) || l.id > before.currentId
  }

  lemma AddIsYounger(reg: Registry, r: Registration)
    requires IdsOk(reg)
    ensures Younger(reg, reg.Add(r))
  {
    forall o
      ensures forall l :: l in reg.Add(r).Of(o) ==> l in reg.Of(o) || l.id > reg.currentId
    {
      AddAt(reg, r, o);
    }
  }

  lemma RemoveKeepsIds(reg: Registry, o: ObjectId, name: string, id: nat, wanted: Option<Callback>)
    requires IdsOk(reg)
    ensures IdsOk(reg.Remove(o, name, id, wanted)) && Younger(reg, reg.Remove(o, name, id, wanted))
  {
    var left, after := Without(reg.Of(o), name, id, wanted), reg.Remove(o, name, id, wanted);
    assert Rising(reg.Of(o));
    WithoutKeepsTheRest(reg.Of(o), name, id, wanted);
    FewerKeepsIds(reg, o, left, after);
    forall p
      ensures after.Of(p) == if p == o then left else reg.Of(p)
    {
    }
  }

  lemma PerformKeepsIds(reg: Registry, c: Command)
    requires IdsOk(reg)
    ensures IdsOk(reg.Perform(c)) && Younger(reg, reg.Perform(c))
  {
    match c
    case AddListener(r) =>
      AddKeepsIds(reg, r);
      AddIsYounger(reg, r);
    case RemoveListener(o, name, id, wanted) =>
      RemoveKeepsIds(reg, o, name, id, wanted);
  }

  lemma YoungerTransitive(a: Registry, b: Registry, c: Registry)
    requires Younger(a, b) && Younger(b, c)
    ensures Younger(a, c)
  {
  }

  lemma {:induction false} PerformAllKeepsIds(reg: Registry, commands: seq<Command>)
    requires IdsOk(reg)
    ensures IdsOk(reg.PerformAll(commands)) && Younger(reg, reg.PerformAll(commands))
    decreases |commands|
  {
    if commands != [] {
      PerformKeepsIds(reg, commands[0]);
      PerformAllKeepsIds(reg.Perform(commands[0]), commands[1..]);
      YoungerTransitive(reg, reg.Perform(commands[0]), reg.PerformAll(commands));
    }
  }

  /** Whatever callbacks do during a dispatch, ids stay unique and are never given again. */
  lemma {:induction false} AfterKeepsIds(reg: Registry, log: seq<Listener>, deliveries: seq<Listener>, react: Behaviour)
    requires IdsOk(reg)
    ensures IdsOk(reg.After(log, deliveries, react)) && Younger(reg, reg.After(log, deliveries, react))
    decreases |deliveries|
  {
    if deliveries != [] {
      var now := log + [deliveries[0]];
      var next := reg.PerformAll(react(now).commands);
      PerformAllKeepsIds(reg, react(now).commands);
      AfterKeepsIds(next, now, deliveries[1..], react);
      YoungerTransitive(reg, next, next.After(now, deliveries[1..], react));
    }
  }

  lemma {:induction false} PerformAllKeepsObjects(reg: Registry, commands: seq<Command>)
    ensures reg.listeners.Keys <= reg.PerformAll(commands).listeners.Keys
    decreases |commands|
  {
    if commands != [] {
      PerformAllKeepsObjects(reg.Perform(commands[0]), commands[1..]);
    }
  }

  lemma {:induction false} AfterKeepsObjects(reg: Registry, log: seq<Listener>, deliveries: seq<Listener>, react: Behaviour)
    ensures reg.listeners.Keys <= reg.After(log, deliveries, react).listeners.Keys
    decreases |deliveries|
  {
    if deliveries != [] {
      var now := log + [deliveries[0]];
      PerformAllKeepsObjects(reg, react(now).commands);
      AfterKeepsObjects(reg.PerformAll(react(now).commands), now, deliveries[1..], react);
    }
  }

  // ---------------------------------------------------------------- dispatch

  /** Whom a list of listeners delivers an event to, from position i on.  The event is looked at after every
      listener, also after one that does not hear it. */
  ghost function Heard(ls: seq<Listener>, i: nat, name: string, stopped: bool, log: seq<Listener>, react: Behaviour): seq<Listener>
    requires i <= |ls|
    decreases |ls| - i
  {
    if i == |ls| then []
    else
      var now := log + [ls[i]];
      if ls[i].Hears(name) then
        [ls[i]] + if stopped || react(now).stops then [] else Heard(ls, i + 1, name, false, now, react)
      else if stopped then []
      else Heard(ls, i + 1, name, false, log, react)
  }

  datatype Flags = Flags(stopped: bool, preventedDefault: bool) {
    /** stopPropagation sets both flags, preventDefault only one; no callback clears any. */
    function React(r: Reaction): Flags {
      Flags(stopped || r.stops, preventedDefault || r.stops || r.prevents)
    }

    ghost function After(log: seq<Listener>, deliveries: seq<Listener>, react: Behaviour): Flags
      decreases |deliveries|
    {
      if deliveries == [] then this
      else
        var now := log + [deliveries[0]];
        React(react(now)).After(now, deliveries[1..], react)
    }
  }

  /** The listeners of a list that hear an event, in order. */
  function Hearing(ls: seq<Listener>, i: nat, name: string): seq<Listener>
    requires i <= |ls|
    decreases |ls| - i
  {
    if i == |ls| then [] else (if ls[i].Hears(name) then [ls[i]] else []) + Hearing(ls, i + 1, name)
  }

  /** The first k deliveries end with one that stops the event. */
  ghost predicate StopsAt(log: seq<Listener>, deliveries: seq<Listener>, k: nat, react: Behaviour) {
    0 < k <= |deliveries| && react(log + deliveries[..k]).stops
  }

  lemma StopsAtTail(log: seq<Listener>, deliveries: seq<Listener>, k: nat, react: Behaviour)
    requires 1 < k <= |deliveries|
    ensures StopsAt(log, deliveries, k, react) <==> StopsAt(log + [deliveries[0]], deliveries[1..], k - 1, react)
  {
    assert log + deliveries[..k] == log + [deliveries[0]] + deliveries[1..][..k - 1];
  }

  /** The event reached exactly the listeners that hear it, in order, up to the first that stops it. */
  ghost predicate UpToFirstStop(heard: seq<Listener>, hearing: seq<Listener>, log: seq<Listener>, react: Behaviour) {
    && heard <= hearing
    && (forall k :: 0 < k < |heard| ==> !StopsAt(log, heard, k, react))
    && (heard == hearing || StopsAt(log, heard, |heard|, react))
  }

  lemma ConsUpToFirstStop(l: Listener, heard: seq<Listener>, hearing: seq<Listener>, log: seq<Listener>, react: Behaviour, all: seq<Listener>)
    requires !react(log + [l]).stops && UpToFirstStop(heard, hearing, log + [l], react) && all == [l] + heard
    ensures UpToFirstStop(all, [l] + hearing, log, react)
  {
    assert all[..1] == [l] && all[1..] == heard;
    forall k | 1 < k <= |all|
      ensures StopsAt(log, all, k, react) <==> StopsAt(log + [l], heard, k - 1, react)
    {
      StopsAtTail(log, all, k, react);
    }
  }

  /** An event not yet stopped reaches the hearing listeners of a list in order, up to the first that stops it. */
  lemma {:induction false} HeardUntilStopped(ls: seq<Listener>, i: nat, name: string, log: seq<Listener>, react: Behaviour, h: seq<Listener>)
    requires i <= |ls| && h == Heard(ls, i, name, false, log, react)
    ensures UpToFirstStop(h, Hearing(ls, i, name), log, react)
    decreases |ls| - i
  {
    if i < |ls| {
      var now, hearing := log + [ls[i]], Hearing(ls, i + 1, name);
      if !ls[i].Hears(name) {
        HeardUntilStopped(ls, i + 1, name, log, react, h);
      } else if react(now).stops {
        assert h == [ls[i]] && h[..1] == [ls[i]];
      } else {
        var rest := Heard(ls, i + 1, name, false, now, react);
        HeardUntilStopped(ls, i + 1, name, now, react, rest);
        ConsUpToFirstStop(ls[i], rest, hearing, log, react, h);
      }
    }
  }

  ghost predicate PreventsAt(log: seq<Listener>, deliveries: seq<Listener>, k: nat, react: Behaviour) {
    0 < k <= |deliveries| && (react(log + deliveries[..k]).stops || react(log + deliveries[..k]).prevents)
  }

  /** The flags say whether any callback raised them. */
  lemma {:induction false} FlagsTell(flags: Flags, log: seq<Listener>, ds: seq<Listener>, react: Behaviour)
    ensures flags.After(log, ds, react).stopped <==> flags.stopped || exists k :: StopsAt(log, ds, k, react)
    ensures flags.After(log, ds, react).preventedDefault <==>
      flags.preventedDefault || exists k :: PreventsAt(log, ds, k, react)
    decreases |ds|
  {
    if ds != [] {
      var now := log + [ds[0]];
      assert ds[..1] == [ds[0]];
      FlagsTell(flags.React(react(now)), now, ds[1..], react);
      forall k | 1 < k <= |ds|
        ensures StopsAt(log, ds, k, react) <==> StopsAt(now, ds[1..], k - 1, react)
        ensures PreventsAt(log, ds, k, react) <==> PreventsAt(now, ds[1..], k - 1, react)
      {
        assert log + ds[..k] == now + ds[1..][..k - 1];
      }
      forall k: nat | StopsAt(now, ds[1..], k, react)
        ensures StopsAt(log, ds, k + 1, react)
      {
        assert log + ds[..k + 1] == now + ds[1..][..k];
      }
      forall k: nat | PreventsAt(now, ds[1..], k, react)
        ensures PreventsAt(log, ds, k + 1, react)
      {
        assert log + ds[..k + 1] == now + ds[1..][..k];
      }
      assert StopsAt(log, ds, 1, react) <==> react(now).stops;
      assert PreventsAt(log, ds, 1, react) <==> react(now).stops || react(now).prevents;
    }
  }

  datatype Outcome = Outcome(registry: Registry, flags: Flags, deliveries: seq<Listener>)

  /** One object tells the listeners it had when it started. */
  ghost function Told(reg: Registry, ls: seq<Listener>, name: string, flags: Flags, log: seq<Listener>, react: Behaviour): Outcome {
    var d := Heard(ls, 0, name, flags.stopped, log, react);
    Outcome(reg.After(log, d, react), flags.After(log, d, react), d)
  }

  /** The object tells its listeners, and unless one of them stops the event the root tells its own. */
  ghost function Fired(reg: Registry, o: ObjectId, root: ObjectId, name: string, flags: Flags, log: seq<Listener>, react: Behaviour): Outcome {
    var t := Told(reg, reg.Of(o), name, flags, log, react);
    if (reg.Of(o) != [] && t.flags.stopped) || o == root then t
    else
      var r := Told(t.registry, t.registry.Of(root), name, t.flags, log + t.deliveries, react);
      Outcome(r.registry, r.flags, t.deliveries + r.deliveries)
  }

  lemma ToldFresh(reg: Registry, ls: seq<Listener>, name: string, flags: Flags, log: seq<Listener>, react: Behaviour, t: Outcome)
    requires !flags.stopped && t == Told(reg, ls, name, flags, log, react)
    ensures UpToFirstStop(t.deliveries, Hearing(ls, 0, name), log, react)
    ensures t.flags.stopped <==> StopsAt(log, t.deliveries, |t.deliveries|, react)
  {
    HeardUntilStopped(ls, 0, name, log, react, t.deliveries);
    FlagsTell(flags, log, t.deliveries, react);
  }

  /** Stopping among the deliveries of the root is stopping among all of them. */
  lemma StopsAtSecond(log: seq<Listener>, t: seq<Listener>, r: seq<Listener>, k: nat, react: Behaviour)
    ensures k <= |t| ==> StopsAt(log, t + r, k, react) == StopsAt(log, t, k, react)
    ensures |t| < k ==> StopsAt(log, t + r, k, react) == StopsAt(log + t, r, k - |t|, react)
  {
    if k <= |t| {
      assert (t + r)[..k] == t[..k];
    } else if k <= |t| + |r| {
      assert log + (t + r)[..k] == log + t + r[..k - |t|];
    }
  }

  /** Everybody who is told: those who hear the event at the target when it is fired, then, unless the event is
      at the root already, those who hear it at the root when it gets there. */
  ghost function Audience(reg: Registry, o: ObjectId, root: ObjectId, name: string, log: seq<Listener>, react: Behaviour): seq<Listener> {
    var t := Told(reg, reg.Of(o), name, Flags(false, false), log, react);
    Hearing(reg.Of(o), 0, name) + if o == root then [] else Hearing(t.registry.Of(root), 0, name)
  }

  lemma JoinUpToFirstStop(t: seq<Listener>, r: seq<Listener>, first: seq<Listener>, second: seq<Listener>, log: seq<Listener>, react: Behaviour)
    requires UpToFirstStop(t, first, log, react) && !StopsAt(log, t, |t|, react)
    requires UpToFirstStop(r, second, log + t, react)
    ensures UpToFirstStop(t + r, first + second, log, react)
    ensures StopsAt(log, t + r, |t + r|, react) <==> StopsAt(log + t, r, |r|, react)
  {
    forall k: nat
      ensures k <= |t| ==> StopsAt(log, t + r, k, react) == StopsAt(log, t, k, react)
      ensures |t| < k ==> StopsAt(log, t + r, k, react) == StopsAt(log + t, r, k - |t|, react)
    {
      StopsAtSecond(log, t, r, k, react);
    }
  }

  lemma CutUpToFirstStop(t: seq<Listener>, first: seq<Listener>, second: seq<Listener>, log: seq<Listener>, react: Behaviour)
    requires UpToFirstStop(t, first, log, react) && StopsAt(log, t, |t|, react)
    ensures UpToFirstStop(t, first + second, log, react)
  {
  }

  /** A new event is delivered to its audience in order, up to the first listener that stops it; the event is
      stopped exactly if the last delivery stopped it, and marked exactly if some delivery prevented its default. */
  lemma FreshEvent(reg: Registry, o: ObjectId, root: ObjectId, name: string, log: seq<Listener>, react: Behaviour, f: Outcome)
    requires f == Fired(reg, o, root, name, Flags(false, false), log, react)
    ensures UpToFirstStop(f.deliveries, Audience(reg, o, root, name, log, react), log, react)
    ensures f.flags.stopped <==> StopsAt(log, f.deliveries, |f.deliveries|, react)
    ensures f.flags.preventedDefault <==> exists k :: PreventsAt(log, f.deliveries, k, react)
  {
    var plain := Flags(false, false);
    var t := Told(reg, reg.Of(o), name, plain, log, react);
    ToldFresh(reg, reg.Of(o), name, plain, log, react, t);
    FlagsTell(plain, log, f.deliveries, react);
    var second := if o == root then [] else Hearing(t.registry.Of(root), 0, name);
    if t.flags.stopped {
      CutUpToFirstStop(t.deliveries, Hearing(reg.Of(o), 0, name), second, log, react);
    } else if o != root {
      var r := Told(t.registry, t.registry.Of(root), name, t.flags, log + t.deliveries, react);
      ToldFresh(t.registry, t.registry.Of(root), name, t.flags, log + t.deliveries, react, r);
      JoinUpToFirstStop(t.deliveries, r.deliveries, Hearing(reg.Of(o), 0, name), second, log, react);
      FlagsAppend(plain, log, t.deliveries, r.deliveries, react);
    }
  }

  lemma {:induction false} FlagsAppend(flags: Flags, log: seq<Listener>, t: seq<Listener>, r: seq<Listener>, react: Behaviour)
    ensures flags.After(log, t + r, react) == flags.After(log, t, react).After(log + t, r, react)
    decreases |t|
  {
    if t == [] {
      assert t + r == r && log + t == log;
    } else {
      var now := log + [t[0]];
      assert (t + r)[1..] == t[1..] + r && log + t == now + t[1..];
      FlagsAppend(flags.React(react(now)), now, t[1..], r, react);
    }
  }

  lemma {:induction false} HearingRises(ls: seq<Listener>, i: nat, name: string)
    requires i <= |ls| && Rising(ls)
    ensures Rising(Hearing(ls, i, name))
    ensures forall l :: l in Hearing(ls, i, name) <==> l.Hears(name) && l in ls[i..]
    decreases |ls| - i
  {
    if i < |ls| {
      HearingRises(ls, i + 1, name);
      var h := Hearing(ls, i + 1, name);
      forall k | 0 <= k < |h|
        ensures ls[i].id < h[k].id
      {
        assert h[k] in ls[i + 1..];
      }
    }
  }

  lemma HearsIs(l: Listener, name: string)
    ensures l.Hears(name) <==> l.eventName == name || l.eventName == "all"
  {
  }

  /** Exactly the listeners of a list that were registered under the name or for all events hear an event. */
  lemma HearingAre(ls: seq<Listener>, name: string, l: Listener)
    requires Rising(ls)
    ensures l in Hearing(ls, 0, name) <==> l in ls && (l.eventName == name || l.eventName == "all")
  {
    HearingRises(ls, 0, name);
    HearsIs(l, name);
    assert ls[0..] == ls;
  }

  /** Who hears an event: the listeners registered under its name, and those registered for all events, in order, each as
      often as it is in the list. */
  lemma WhoHears(ls: seq<Listener>, l: Listener, name: string)
    ensures Hearing([], 0, name) == []
    ensures Hearing(ls + [l], 0, name) == Hearing(ls, 0, name) + if l.eventName == name || l.eventName == "all" then [l] else []
  {
    HearingSnoc(ls, l, 0, name);
  }

  lemma {:induction false} HearingSnoc(ls: seq<Listener>, l: Listener, i: nat, name: string)
    requires i <= |ls|
    ensures Hearing(ls + [l], i, name) == Hearing(ls, i, name) + if l.eventName == name || l.eventName == "all" then [l] else []
    decreases |ls| - i
  {
    HearsIs(l, name);
    if i < |ls| {
      HearingSnoc(ls, l, i + 1, name);
    }
  }

  /** A listener just added for all events is in the audience of every event of its object, one added under a name in that
      of every event of that name, and of no other. */
  lemma NewListenerInAudience(reg: Registry, r: Registration, root: ObjectId, name: string, log: seq<Listener>, react: Behaviour)
    requires IdsOk(reg)
    ensures var l := Listener(r.eventName, r.callback, reg.currentId + 1);
      r.eventName == "all" || r.eventName == name ==> l in Audience(reg.Add(r), r.target, root, name, log, react)
    ensures var l := Listener(r.eventName, r.callback, reg.currentId + 1);
      r.eventName != "all" && r.eventName != name ==> l !in Hearing(reg.Add(r).Of(r.target), 0, name)
  {
    var l := Listener(r.eventName, r.callback, reg.currentId + 1);
    AddAt(reg, r, r.target);
    WhoHears(reg.Of(r.target), l, name);
    AddKeepsIds(reg, r);
    assert Rising(reg.Add(r).Of(r.target));
    HearingAre(reg.Add(r).Of(r.target), name, l);
  }

  lemma {:induction false} NothingDone(reg: Registry, log: seq<Listener>, deliveries: seq<Listener>, react: Behaviour)
    requires forall h: seq<Listener> :: react(h).commands == []
    ensures reg.After(log, deliveries, react) == reg
    decreases |deliveries|
  {
    if deliveries != [] {
      NothingDone(reg, log + [deliveries[0]], deliveries[1..], react);
    }
  }

  /** Every event comes to the root as well: its listeners are behind those of the object in the audience.  Callbacks that
      add or remove listeners there may change who they are. */
  lemma RootHearsToo(reg: Registry, o: ObjectId, root: ObjectId, name: string, log: seq<Listener>, react: Behaviour)
    requires o != root
    ensures var t := Told(reg, reg.Of(o), name, Flags(false, false), log, react);
      Audience(reg, o, root, name, log, react) == Hearing(reg.Of(o), 0, name) + Hearing(t.registry.Of(root), 0, name)
    ensures (forall h: seq<Listener> :: react(h).commands == []) ==>
      Audience(reg, o, root, name, log, react) == Hearing(reg.Of(o), 0, name) + Hearing(reg.Of(root), 0, name)
    ensures Audience(reg, root, root, name, log, react) == Hearing(reg.Of(root), 0, name)
  {
    if forall h: seq<Listener> :: react(h).commands == [] {
      NothingDone(reg, log, Told(reg, reg.Of(o), name, Flags(false, false), log, react).deliveries, react);
    }
  }

  /** An event that is stopped already is told to the first listener, if that hears it, and to nobody else. */
  lemma HeardIfStopped(ls: seq<Listener>, name: string, log: seq<Listener>, react: Behaviour)
    ensures Heard(ls, 0, name, true, log, react) ==
      if ls != [] && (ls[0].eventName == name || ls[0].eventName == "all") then [ls[0]] else []
  {
  }

  /** Commands are performed in order. */
  lemma {:induction false} PerformInOrder(reg: Registry, commands: seq<Command>, c: Command)
    ensures reg.PerformAll([]) == reg
    ensures reg.PerformAll(commands + [c]) == match c
      case AddListener(r) => reg.PerformAll(commands).Add(r)
      case RemoveListener(o, name, id, wanted) => reg.PerformAll(commands).Remove(o, name, id, wanted)
    decreases |commands|
  {
    if commands == [] {
      assert commands + [c] == [c] && [c][1..] == [];
    } else {
      assert (commands + [c])[1..] == commands[1..] + [c];
      PerformInOrder(reg.Perform(commands[0]), commands[1..], c);
    }
  }

  lemma RisingApartDistinct(a: seq<Listener>, b: seq<Listener>, all: seq<Listener>)
    requires Rising(a) && Rising(b) && all == a + b && forall l, m :: l in a && m in b ==> l.id != m.id
    ensures forall i, j :: 0 <= i < j < |all| ==> all[i].id != all[j].id
  {
    forall i, j | 0 <= i < j < |all|
      ensures all[i].id != all[j].id
    {
      if i < |a| <= j {
        assert all[i] in a && all[j] in b;
      }
    }
  }

  /** A listener of one object and a later one of another object have different ids. */
  lemma OldOrNew(reg: Registry, o: ObjectId, p: ObjectId, l: Listener, after: Registry, m: Listener)
    requires IdsOk(reg) && o != p && l in reg.Of(o) && Younger(reg, after) && m in after.Of(p)
    ensures l.id != m.id
  {
    var i :| 0 <= i < |reg.Of(o)| && reg.Of(o)[i] == l;
    assert Below(reg.Of(o), reg.currentId) && Apart(reg.Of(o), reg.Of(p));
    if m in reg.Of(p) {
      var j :| 0 <= j < |reg.Of(p)| && reg.Of(p)[j] == m;
      assert reg.Of(o)[i].id != reg.Of(p)[j].id;
    }
  }

  /** No listener is told twice. */
  lemma ToldOnce(reg: Registry, o: ObjectId, root: ObjectId, name: string, log: seq<Listener>, react: Behaviour, all: seq<Listener>)
    requires IdsOk(reg) && all == Audience(reg, o, root, name, log, react)
    ensures forall i, j :: 0 <= i < j < |all| ==> all[i].id != all[j].id
  {
    var t := Told(reg, reg.Of(o), name, Flags(false, false), log, react);
    var first, later := reg.Of(o), t.registry.Of(root);
    AfterKeepsIds(reg, log, t.deliveries, react);
    assert Rising(first) && Rising(later);
    HearingRises(first, 0, name);
    HearingRises(later, 0, name);
    if o == root {
      RisingApartDistinct(Hearing(first, 0, name), [], all);
    } else {
      assert Apart(first, reg.Of(root)) && Below(first, reg.currentId);
      forall l, m | l in Hearing(first, 0, name) && m in Hearing(later, 0, name)
        ensures l.id != m.id
      {
        OldOrNew(reg, o, root, l, t.registry, m);
      }
      RisingApartDistinct(Hearing(first, 0, name), Hearing(later, 0, name), all);
    }
  }

  // ---------------------------------------------------------------- removal during dispatch

  /** The copied list holds pointers: a listener that a callback has removed no longer exists.  This is the position
      behind the last listener a dispatch looks at. */
  ghost function LookedAt(ls: seq<Listener>, i: nat, name: string, stopped: bool, log: seq<Listener>, react: Behaviour): (r: nat)
    requires i <= |ls|
    ensures i <= r <= |ls|
    decreases |ls| - i
  {
    if i == |ls| then i
    else
      var now := log + [ls[i]];
      if ls[i].Hears(name) then if stopped || react(now).stops then i + 1 else LookedAt(ls, i + 1, name, false, now, react)
      else if stopped then i + 1
      else LookedAt(ls, i + 1, name, false, log, react)
  }

  /** The listeners from position i up to position j that hear an event: whom the dispatch has told when it comes to j. */
  function HearingUpTo(ls: seq<Listener>, i: nat, j: nat, name: string): seq<Listener>
    requires i <= j <= |ls|
    decreases j - i
  {
    if i == j then [] else (if ls[i].Hears(name) then [ls[i]] else []) + HearingUpTo(ls, i + 1, j, name)
  }

  /** When the dispatch comes to position j, that listener still exists. */
  ghost predicate ExistsAt(reg: Registry, o: ObjectId, ls: seq<Listener>, i: nat, j: nat, name: string, log: seq<Listener>, react: Behaviour)
    requires i <= j < |ls|
  {
    ls[j] in reg.After(log, HearingUpTo(ls, i, j, name), react).Of(o)
  }

  /** The dispatch looks only at listeners that exist. */
  ghost predicate Sound(reg: Registry, o: ObjectId, ls: seq<Listener>, i: nat, name: string, stopped: bool, log: seq<Listener>, react: Behaviour)
    requires i <= |ls|
  {
    forall j :: i <= j < LookedAt(ls, i, name, stopped, log, react) ==> ExistsAt(reg, o, ls, i, j, name, log, react)
  }

  /** Looking at one listener: it must exist, and the rest of the dispatch must be sound. */
  lemma SoundStep(reg: Registry, o: ObjectId, ls: seq<Listener>, i: nat, name: string, stopped: bool, log: seq<Listener>, react: Behaviour,
                  next: nat, stopped': bool, reg': Registry, log': seq<Listener>)
    requires i < |ls| && next == i + 1
    requires var ds := if ls[i].Hears(name) then [ls[i]] else [];
      log' == log + ds && reg' == reg.After(log, ds, react)
      && stopped' == (stopped || (ls[i].Hears(name) && react(log').stops))
    ensures Sound(reg, o, ls, i, name, stopped, log, react) <==>
      ls[i] in reg.Of(o) && (stopped' || Sound(reg', o, ls, next, name, false, log', react))
  {
    if !ls[i].Hears(name) {
      assert log + [] == log;
    }
    assert ExistsAt(reg, o, ls, i, i, name, log, react) <==> ls[i] in reg.Of(o);
    forall j | next <= j < |ls|
      ensures ExistsAt(reg, o, ls, i, j, name, log, react) <==> ExistsAt(reg', o, ls, next, j, name, log', react)
    {
      ExistsStep(reg, o, ls, i, j, name, log, react, reg', log');
    }
    if stopped' {
      assert LookedAt(ls, i, name, stopped, log, react) == next;
    } else {
      assert LookedAt(ls, i, name, stopped, log, react) == LookedAt(ls, next, name, false, log', react);
    }
  }

  lemma AfterCons(reg: Registry, log: seq<Listener>, l: Listener, rest: seq<Listener>, react: Behaviour)
    ensures reg.After(log, [l] + rest, react) == reg.After(log, [l], react).After(log + [l], rest, react)
  {
    assert [l][1..] == [] && ([l] + rest)[1..] == rest;
  }

  lemma ExistsStep(reg: Registry, o: ObjectId, ls: seq<Listener>, i: nat, j: nat, name: string, log: seq<Listener>, react: Behaviour,
                   reg': Registry, log': seq<Listener>)
    requires i < j < |ls|
    requires var ds := if ls[i].Hears(name) then [ls[i]] else []; log' == log + ds && reg' == reg.After(log, ds, react)
    ensures ExistsAt(reg, o, ls, i, j, name, log, react) <==> ExistsAt(reg', o, ls, i + 1, j, name, log', react)
  {
    var rest := HearingUpTo(ls, i + 1, j, name);
    if ls[i].Hears(name) {
      AfterCons(reg, log, ls[i], rest, react);
    } else {
      assert log + [] == log && [] + rest == rest;
    }
  }

  ghost predicate RemovesIn(commands: seq<Command>, o: ObjectId, l: Listener) {
    exists c :: 0 <= c < |commands| && commands[c].Removes(o, l)
  }

  /** The k-th delivery removes the listener. */
  ghost predicate RemovedAt(log: seq<Listener>, deliveries: seq<Listener>, k: nat, o: ObjectId, l: Listener, react: Behaviour) {
    0 < k <= |deliveries| && RemovesIn(react(log + deliveries[..k]).commands, o, l)
  }

  ghost predicate RemovedAmong(log: seq<Listener>, deliveries: seq<Listener>, o: ObjectId, l: Listener, react: Behaviour) {
    exists k :: RemovedAt(log, deliveries, k, o, l, react)
  }

  lemma PerformRemoves(reg: Registry, c: Command, o: ObjectId, l: Listener)
    requires IdsOk(reg) && l in reg.Of(o)
    ensures l in reg.Perform(c).Of(o) <==> !c.Removes(o, l)
  {
    match c
    case AddListener(r) => AddAt(reg, r, o);
    case RemoveListener(p, name, id, wanted) =>
      assert Rising(reg.Of(p));
      WithoutKeepsTheRest(reg.Of(p), name, id, wanted);
  }

  /** What is gone does not come back. */
  lemma GoneForGood(reg: Registry, o: ObjectId, l: Listener, mid: Registry, after: Registry)
    requires IdsOk(reg) && l in reg.Of(o) && Younger(reg, mid) && Younger(mid, after) && l !in mid.Of(o)
    ensures l !in after.Of(o)
  {
    assert Below(reg.Of(o), reg.currentId);
    var i :| 0 <= i < |reg.Of(o)| && reg.Of(o)[i] == l;
    assert l.id <= reg.currentId;
  }

  lemma {:induction false} PerformAllRemoves(reg: Registry, commands: seq<Command>, o: ObjectId, l: Listener)
    requires IdsOk(reg) && l in reg.Of(o)
    ensures l in reg.PerformAll(commands).Of(o) <==> !RemovesIn(commands, o, l)
    decreases |commands|
  {
    if commands != [] {
      var next, rest := reg.Perform(commands[0]), commands[1..];
      PerformKeepsIds(reg, commands[0]);
      PerformRemoves(reg, commands[0], o, l);
      assert RemovesIn(commands, o, l) <==> commands[0].Removes(o, l) || RemovesIn(rest, o, l) by {
        assert forall c :: 0 < c < |commands| ==> commands[c] == rest[c - 1];
        assert forall c :: 0 <= c < |rest| ==> rest[c] == commands[c + 1];
      }
      if commands[0].Removes(o, l) {
        PerformAllKeepsIds(next, rest);
        GoneForGood(reg, o, l, next, next.PerformAll(rest));
      } else {
        PerformAllRemoves(next, rest, o, l);
      }
    }
  }

  lemma RemovedAmongCons(log: seq<Listener>, ds: seq<Listener>, now: seq<Listener>, o: ObjectId, l: Listener, react: Behaviour)
    requires ds != [] && now == log + [ds[0]]
    ensures RemovedAmong(log, ds, o, l, react) <==> RemovesIn(react(now).commands, o, l) || RemovedAmong(now, ds[1..], o, l, react)
  {
    assert ds[..1] == [ds[0]];
    assert RemovedAt(log, ds, 1, o, l, react) <==> RemovesIn(react(now).commands, o, l);
    if RemovedAmong(log, ds, o, l, react) {
      var k: nat :| RemovedAt(log, ds, k, o, l, react);
      if k > 1 {
        assert log + ds[..k] == now + ds[1..][..k - 1];
        assert RemovedAt(now, ds[1..], k - 1, o, l, react);
      }
    }
    if RemovedAmong(now, ds[1..], o, l, react) {
      var k: nat :| RemovedAt(now, ds[1..], k, o, l, react);
      assert log + ds[..k + 1] == now + ds[1..][..k];
      assert RemovedAt(log, ds, k + 1, o, l, react);
    }
  }

  lemma {:induction false} AfterRemoves(reg: Registry, log: seq<Listener>, ds: seq<Listener>, o: ObjectId, l: Listener, react: Behaviour)
    requires IdsOk(reg) && l in reg.Of(o)
    ensures l in reg.After(log, ds, react).Of(o) <==> !RemovedAmong(log, ds, o, l, react)
    decreases |ds|
  {
    if ds != [] {
      var now := log + [ds[0]];
      var next := reg.PerformAll(react(now).commands);
      RemovedAmongCons(log, ds, now, o, l, react);
      PerformAllKeepsIds(reg, react(now).commands);
      PerformAllRemoves(reg, react(now).commands, o, l);
      if l in next.Of(o) {
        AfterRemoves(next, now, ds[1..], o, l, react);
      } else {
        AfterKeepsIds(next, now, ds[1..], react);
        GoneForGood(reg, o, l, next, next.After(now, ds[1..], react));
      }
    }
  }

  /** A dispatch looks only at listeners that exist if and only if no callback it has told removes a listener of the
      object that it has yet to look at. */
  lemma SoundDispatch(reg: Registry, o: ObjectId, name: string, stopped: bool, log: seq<Listener>, react: Behaviour, ls: seq<Listener>)
    requires IdsOk(reg) && ls == reg.Of(o)
    ensures Sound(reg, o, ls, 0, name, stopped, log, react) <==>
      forall j :: 0 <= j < LookedAt(ls, 0, name, stopped, log, react) ==>
        !RemovedAmong(log, HearingUpTo(ls, 0, j, name), o, ls[j], react)
  {
    forall j | 0 <= j < LookedAt(ls, 0, name, stopped, log, react)
      ensures ExistsAt(reg, o, ls, 0, j, name, log, react) <==> !RemovedAmong(log, HearingUpTo(ls, 0, j, name), o, ls[j], react)
    {
      AfterRemoves(reg, log, HearingUpTo(ls, 0, j, name), o, ls[j], react);
    }
  }

  lemma {:induction false} UpToIsEarlier(ls: seq<Listener>, i: nat, j: nat, name: string)
    requires i <= j <= |ls|
    ensures forall l :: l in HearingUpTo(ls, i, j, name) ==> l in ls[i..j]
    decreases j - i
  {
    if i < j {
      UpToIsEarlier(ls, i + 1, j, name);
      assert ls[i..j] == [ls[i]] + ls[i + 1..j];
    }
  }

  /** Callbacks that remove at most the listener just being told remove no listener behind it. */
  lemma LaterNotRemoved(o: ObjectId, log: seq<Listener>, ds: seq<Listener>, react: Behaviour, l: Listener)
    requires l !in ds && SelfRemovalOnly(o, react)
    ensures !RemovedAmong(log, ds, o, l, react)
  {
    forall k: nat | 0 < k <= |ds|
      ensures !RemovedAt(log, ds, k, o, l, react)
    {
      var h := log + ds[..k];
      assert h[|h| - 1] == ds[k - 1];
    }
  }

  ghost predicate SelfRemovalOnly(o: ObjectId, react: Behaviour) {
    forall h: seq<Listener>, l :: h != [] && RemovesIn(react(h).commands, o, l) ==> l == h[|h| - 1]
  }

  /** So callbacks may always remove the listener that is just being told. */
  lemma SelfRemovalIsSound(reg: Registry, o: ObjectId, name: string, stopped: bool, log: seq<Listener>, react: Behaviour, ls: seq<Listener>)
    requires IdsOk(reg) && ls == reg.Of(o) && SelfRemovalOnly(o, react)
    ensures Sound(reg, o, ls, 0, name, stopped, log, react)
  {
    SoundDispatch(reg, o, name, stopped, log, react, ls);
    assert Rising(ls);
    forall j | 0 <= j < LookedAt(ls, 0, name, stopped, log, react)
      ensures !RemovedAmong(log, HearingUpTo(ls, 0, j, name), o, ls[j], react)
    {
      UpToIsEarlier(ls, 0, j, name);
      assert forall i :: 0 <= i < j ==> ls[i].id < ls[j].id;
      LaterNotRemoved(o, log, HearingUpTo(ls, 0, j, name), react, ls[j]);
    }
  }

  /** The same for a whole event: at the object, and at the root if the event gets there. */
  ghost predicate SoundFired(reg: Registry, o: ObjectId, root: ObjectId, name: string, flags: Flags, log: seq<Listener>, react: Behaviour) {
    var t := Told(reg, reg.Of(o), name, flags, log, react);
    && Sound(reg, o, reg.Of(o), 0, name, flags.stopped, log, react)
    && ((reg.Of(o) != [] && t.flags.stopped) || o == root
        || Sound(t.registry, root, t.registry.Of(root), 0, name, t.flags.stopped, log + t.deliveries, react))
  }

  function TwoListeners(): seq<Listener> { [Listener("open", 7, 2), Listener("open", 8, 3)] }

  function OneObject(): Registry { Registry(3, map[0 := TwoListeners()]) }

  lemma OneObjectOk()
    ensures IdsOk(OneObject()) && OneObject().Of(0) == TwoListeners()
  {
    forall o
      ensures Rising(OneObject().Of(o)) && Below(OneObject().Of(o), 3)
      ensures forall p :: o != p ==> Apart(OneObject().Of(o), OneObject().Of(p))
    {
      assert o != 0 ==> OneObject().Of(o) == [];
    }
  }

  lemma BothLookedAt(react: Behaviour)
    requires forall h: seq<Listener> :: !react(h).stops
    ensures LookedAt(TwoListeners(), 0, "open", false, [], react) == 2
    ensures HearingUpTo(TwoListeners(), 0, 1, "open") == [TwoListeners()[0]]
  {
    var ls := TwoListeners();
    var one := [] + [ls[0]];
    assert LookedAt(ls, 2, "open", false, one + [ls[1]], react) == 2;
    assert LookedAt(ls, 1, "open", false, one, react) == 2;
    assert HearingUpTo(ls, 1, 1, "open") == [];
  }

  /** A callback that removes the next listener leaves the dispatch with a pointer to nothing. */
  lemma RemovingTheNextIsUnsound(react: Behaviour)
    requires forall h: seq<Listener> :: react(h) == Reaction(false, false, [RemoveListener(0, "open", 3, None)])
    ensures IdsOk(OneObject()) && !Sound(OneObject(), 0, TwoListeners(), 0, "open", false, [], react)
  {
    var ls := TwoListeners();
    OneObjectOk();
    BothLookedAt(react);
    SoundDispatch(OneObject(), 0, "open", false, [], react, ls);
    assert react([] + [ls[0]][..1]).commands[0].Removes(0, ls[1]);
    assert RemovedAt([], [ls[0]], 1, 0, ls[1], react);
    assert RemovedAmong([], HearingUpTo(ls, 0, 1, "open"), 0, ls[1], react);
  }

  // ---------------------------------------------------------------- the code

  /** The loop of RemoveEventListener: erasing while walking the vector. */
  method EraseMatching(listeners: seq<Listener>, eventName: string, listenerId: nat, callback: Option<Callback>)
    returns (ls: seq<Listener>)
    ensures ls == Without(listeners, eventName, listenerId, callback)
  {
    ghost var goal := Without(listeners, eventName, listenerId, callback);
    ls := listeners;
    var i := 0;
    assert ls[0..] == ls;
    while i < |ls|
      invariant Erasing(ls, i, eventName, listenerId, callback, goal)
      decreases |ls| - i
    {
      EraseOne(ls, i, eventName, listenerId, callback, goal);
      if ls[i].Matches(eventName, listenerId, callback) {
        ls := ls[..i] + ls[i + 1..];
      } else {
        i := i + 1;
      }
    }
    assert ls[..i] == ls && ls[i..] == [];
  }

  class Event {
    const eventName: string
    var stopped: bool
    var preventedDefault: bool

    constructor (eventName: string)
      ensures this.eventName == eventName && GetFlags() == Flags(false, false)
    {
      this.eventName := eventName;
      stopped, preventedDefault := false, false;
    }

    function GetFlags(): Flags
      reads this
    {
      Flags(stopped, preventedDefault)
    }

    method StopPropagation()
      modifies this
      ensures GetFlags() == Flags(true, true)
    {
      stopped := true;
      preventedDefault := true;
    }

    method PreventDefault()
      modifies this
      ensures GetFlags() == Flags(old(stopped), true)
    {
      preventedDefault := true;
    }
  }

  /** The static members of KEventObject and EventListener.  `delivered` logs the callbacks called. */
  class EventObjects {
    const root: ObjectId
    var currentId: nat
    var listenerMap: map<ObjectId, seq<Listener>>
    var delivered: seq<Listener>

    constructor (root: ObjectId)
      ensures this.root == root && root in listenerMap && delivered == []
      ensures Static().currentId == 1 && (forall o :: Static().Of(o) == []) && IdsOk(Static())
    {
      this.root := root;
      currentId, listenerMap, delivered := 1, map[root := []], [];
    }

    function Static(): Registry
      reads this
    {
      Registry(currentId, listenerMap)
    }

    method NewObject(o: ObjectId)
      requires o !in listenerMap
      modifies this`listenerMap
      ensures listenerMap == old(listenerMap)[o := []]
      ensures forall p :: Static().Of(p) == old(Static()).Of(p)
      ensures old(IdsOk(Static())) ==> IdsOk(Static())
    {
      ghost var before := Static();
      listenerMap := listenerMap[o := []];
      if IdsOk(before) {
        FewerKeepsIds(before, o, [], Static());
      }
    }

    method DeleteObject(o: ObjectId)
      requires o in listenerMap && o != root
      modifies this`listenerMap
      ensures listenerMap == old(listenerMap) - {o}
      ensures forall p :: Static().Of(p) == if p == o then [] else old(Static()).Of(p)
      ensures old(IdsOk(Static())) ==> IdsOk(Static())
    {
      ghost var before := Static();
      listenerMap := listenerMap - {o};
      if IdsOk(before) {
        SameListeners(before, o, Static());
      }
    }

    /** The id is new: higher than every id handed out before. */
    method AddEventListener(o: ObjectId, eventName: string, callback: Callback) returns (listenerId: nat)
      requires o in listenerMap
      modifies this`currentId, this`listenerMap
      ensures Static() == old(Static()).Add(Registration(o, eventName, callback))
      ensures Static().Of(o) == old(Static()).Of(o) + [Listener(eventName, callback, listenerId)]
      ensures forall p :: p != o ==> Static().Of(p) == old(Static()).Of(p)
      ensures listenerId == old(currentId) + 1 == currentId
      ensures old(IdsOk(Static())) ==> IdsOk(Static()) && Extends(old(Static()), Static())
    {
      if IdsOk(Static()) {
        AddKeepsIds(Static(), Registration(o, eventName, callback));
      }
      currentId := currentId + 1;
      var listener := Listener(eventName, callback, currentId);
      listenerMap := listenerMap[o := listenerMap[o] + [listener]];
      listenerId := listener.id;
    }

    method AddEventListenerForAllEvents(o: ObjectId, callback: Callback) returns (listenerId: nat)
      requires o in listenerMap
      modifies this`currentId, this`listenerMap
      ensures Static() == old(Static()).Add(Registration(o, ALL, callback))
      ensures Static().Of(o) == old(Static()).Of(o) + [Listener("all", callback, listenerId)]
      ensures forall p :: p != o ==> Static().Of(p) == old(Static()).Of(p)
      ensures listenerId == old(currentId) + 1 == currentId
      ensures old(IdsOk(Static())) ==> IdsOk(Static()) && Extends(old(Static()), Static())
    {
      listenerId := AddEventListener(o, ALL, callback);
    }

    method RemoveEventListener(o: ObjectId, eventName: string, listenerId: nat, callback: Option<Callback>)
      requires o in listenerMap
      modifies this`listenerMap
      ensures listenerMap == old(listenerMap)[o := Without(old(listenerMap)[o], eventName, listenerId, callback)]
      ensures old(IdsOk(Static())) ==> IdsOk(Static())
    {
      ghost var before := Static();
      var left := EraseMatching(listenerMap[o], eventName, listenerId, callback);
      listenerMap := listenerMap[o := left];
      if IdsOk(before) {
        WithoutKeepsTheRest(before.Of(o), eventName, listenerId, callback);
        FewerKeepsIds(before, o, left, Static());
      }
    }

    /** A callback adds and removes listeners, also of objects it has just created. */
    method RunCommand(c: Command)
      modifies this`currentId, this`listenerMap
      ensures Static() == old(Static()).Perform(c)
    {
      var o := if c.AddListener? then c.registration.target else c.target;
      ghost var goal := Static().Perform(c);
      if o !in listenerMap {
        listenerMap := listenerMap[o := []];
      }
      match c
      case AddListener(r) =>
        var id := AddEventListener(o, r.eventName, r.callback);
        assert Static() == goal;
      case RemoveListener(_, name, id, wanted) =>
        RemoveEventListener(o, name, id, wanted);
        assert Static() == goal;
    }

    method RunCommands(commands: seq<Command>)
      modifies this`currentId, this`listenerMap
      ensures Static() == old(Static()).PerformAll(commands)
    {
      var left := commands;
      while left != []
        invariant Static().PerformAll(left) == old(Static()).PerformAll(commands)
        decreases |left|
      {
        RunCommand(left[0]);
        left := left[1..];
      }
    }

    /** A callback runs: it may raise the flags of the event, and add and remove listeners. */
    method Call(listener: Listener, event: Event, react: Behaviour)
      modifies this`currentId, this`listenerMap, this`delivered, event
      ensures delivered == old(delivered) + [listener]
      ensures Static() == old(Static()).PerformAll(react(delivered).commands)
      ensures event.GetFlags() == old(event.GetFlags()).React(react(delivered))
    {
      delivered := delivered + [listener];
      var r := react(delivered);
      if r.stops {
        event.StopPropagation();
      }
      if r.prevents {
        event.PreventDefault();
      }
      RunCommands(r.commands);
    }

    /** Exceptions of the callback end here. */
    method FireEventIfMatches(listener: Listener, event: Event, react: Behaviour)
      modifies this`currentId, this`listenerMap, this`delivered, event
      ensures var ds := if listener.Hears(event.eventName) then [listener] else [];
        && delivered == old(delivered) + ds
        && Static() == old(Static()).After(old(delivered), ds, react)
        && event.GetFlags() == old(event.GetFlags()).After(old(delivered), ds, react)
    {
      if event.eventName != listener.eventName && listener.eventName != ALL {
        assert delivered == delivered + [];
        return;
      }
      Call(listener, event, react);
      assert [listener][1..] == [];
    }

    /** The loop of FireEvent over the copied list; says whether it was left early. */
    method TellListeners(o: ObjectId, listeners: seq<Listener>, event: Event, react: Behaviour)
      returns (left: bool, ghost sound: bool)
      modifies this`currentId, this`listenerMap, this`delivered, event
      ensures Leads(Told(old(Static()), listeners, event.eventName, old(event.GetFlags()), old(delivered), react),
                    old(delivered), Static(), event.GetFlags(), delivered)
      ensures left == (listeners != [] && event.stopped)
      ensures old(listenerMap).Keys <= listenerMap.Keys
      ensures sound == Sound(old(Static()), o, listeners, 0, event.eventName, old(event.stopped), old(delivered), react)
    {
      sound := true;
      ghost var name, log0 := event.eventName, delivered;
      ghost var t := Told(Static(), listeners, name, event.GetFlags(), delivered, react);
      AfterKeepsObjects(Static(), delivered, t.deliveries, react);
      var i := 0;
      while i < |listeners|
        invariant i <= |listeners| && (i > 0 ==> !event.stopped)
        invariant Telling(t, listeners, i, name, event.GetFlags(), Static(), log0, delivered, react)
        invariant Sound(old(Static()), o, listeners, 0, name, old(event.stopped), log0, react) <==>
          sound && Sound(Static(), o, listeners, i, name, event.stopped, delivered, react)
      {
        var listener := listeners[i];
        sound := sound && listener in Static().Of(o);
        ghost var flags, reg, log := event.GetFlags(), Static(), delivered;
        i := i + 1;
        FireEventIfMatches(listener, event, react);
        TellOne(t, listeners, i - 1, name, flags, reg, log0, log, react, event.GetFlags(), Static(), delivered);
        SoundStep(reg, o, listeners, i - 1, name, flags.stopped, log, react, i, event.stopped, Static(), delivered);
        if event.stopped {
          return true, sound;
        }
      }
      left := false;
    }

    /** Returns whether the default action may go ahead.  `sound` says whether every listener looked at still existed;
        otherwise the code uses a deleted object and nothing is promised about it. */
    method FireEvent(o: ObjectId, event: Event, react: Behaviour) returns (goAhead: bool, ghost sound: bool)
      requires o in listenerMap && root in listenerMap
      modifies this`currentId, this`listenerMap, this`delivered, event
      ensures Leads(Fired(old(Static()), o, root, event.eventName, old(event.GetFlags()), old(delivered), react),
                    old(delivered), Static(), event.GetFlags(), delivered)
      ensures goAhead == !event.preventedDefault
      ensures sound == SoundFired(old(Static()), o, root, event.eventName, old(event.GetFlags()), old(delivered), react)
      decreases if o == root then 0 else 1
    {
      var listeners := listenerMap[o];
      ghost var log0, reg0, flags0 := delivered, Static(), event.GetFlags();
      var left;
      left, sound := TellListeners(o, listeners, event, react);
      if left {
        return !event.preventedDefault, sound;
      }
      if o != root {
        var r;
        ghost var rootSound;
        ghost var log1, reg1, flags1 := delivered, Static(), event.GetFlags();
        r, rootSound := FireEvent(root, event, react);
        Bubble(reg0, o, root, event.eventName, flags0, log0, react, reg1, flags1, log1, Static(), event.GetFlags(), delivered);
        sound := sound && rootSound;
      }
      goAhead := !event.preventedDefault;
    }
  }

  /** The outcome, and the log before it, lead to this state. */
  ghost predicate Leads(f: Outcome, log0: seq<Listener>, reg: Registry, flags: Flags, log: seq<Listener>) {
    reg == f.registry && flags == f.flags && log == log0 + f.deliveries
  }

  /** What the object tells and then the root is what an event at the object leads to. */
  lemma Bubble(reg0: Registry, o: ObjectId, root: ObjectId, name: string, flags0: Flags, log0: seq<Listener>, react: Behaviour,
               reg1: Registry, flags1: Flags, log1: seq<Listener>, reg2: Registry, flags2: Flags, log2: seq<Listener>)
    requires o != root && !(reg0.Of(o) != [] && flags1.stopped)
    requires Leads(Told(reg0, reg0.Of(o), name, flags0, log0, react), log0, reg1, flags1, log1)
    requires Leads(Fired(reg1, root, root, name, flags1, log1, react), log1, reg2, flags2, log2)
    ensures Leads(Fired(reg0, o, root, name, flags0, log0, react), log0, reg2, flags2, log2)
  {
    var t := Told(reg0, reg0.Of(o), name, flags0, log0, react).deliveries;
    var r := Told(reg1, reg1.Of(root), name, flags1, log1, react).deliveries;
    assert log0 + t + r == log0 + (t + r);
  }

  /** What is still to be delivered, from listener i on, leads to the outcome t. */
  ghost predicate Telling(t: Outcome, ls: seq<Listener>, i: nat, name: string, flags: Flags, reg: Registry, log0: seq<Listener>,
                          log: seq<Listener>, react: Behaviour)
    requires i <= |ls|
  {
    var rest := Heard(ls, i, name, flags.stopped, log, react);
    && t.registry == reg.After(log, rest, react) && t.flags == flags.After(log, rest, react)
    && log0 + t.deliveries == log + rest
  }

  lemma TellOne(t: Outcome, ls: seq<Listener>, i: nat, name: string, flags: Flags, reg: Registry, log0: seq<Listener>,
                log: seq<Listener>, react: Behaviour, flags': Flags, reg': Registry, log': seq<Listener>)
    requires i < |ls| && Telling(t, ls, i, name, flags, reg, log0, log, react)
    requires var ds := if ls[i].Hears(name) then [ls[i]] else [];
      log' == log + ds && reg' == reg.After(log, ds, react) && flags' == flags.After(log, ds, react)
    ensures flags'.stopped ==> t == Outcome(reg', flags', t.deliveries) && log0 + t.deliveries == log'
    ensures !flags'.stopped ==> Telling(t, ls, i + 1, name, flags', reg', log0, log', react)
  {
    if !ls[i].Hears(name) {
      assert log + [] == log;
    } else {
      assert [ls[i]][1..] == [];
      var rest := Heard(ls, i, name, flags.stopped, log, react);
      assert rest[0] == ls[i];
      if flags'.stopped {
        assert rest == [ls[i]];
      } else {
        assert rest[1..] == Heard(ls, i + 1, name, false, log', react);
      }
    }
  }

  lemma SameListeners(before: Registry, o: ObjectId, after: Registry)
    requires IdsOk(before) && after.currentId == before.currentId
    requires forall p :: after.Of(p) == if p == o then [] else before.Of(p)
    ensures IdsOk(after)
  {
    FewerKeepsIds(before, o, [], Registry(before.currentId, before.listeners[o := []]));
    var empty := Registry(before.currentId, before.listeners[o := []]);
    assert forall p :: after.Of(p) == empty.Of(p);
    forall p, q | p != q
      ensures Apart(after.Of(p), after.Of(q))
    {
      assert Apart(empty.Of(p), empty.Of(q));
    }
    forall p
      ensures Rising(after.Of(p)) && Below(after.Of(p), after.currentId)
    {
      assert Rising(empty.Of(p)) && Below(empty.Of(p), empty.currentId);
    }
  }
}
