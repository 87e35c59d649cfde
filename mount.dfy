/** The state registry and ordered start/stop orchestrator (src/index.ts).

    A registry maps names to state records. Each record has a registration
    number (`order`), a status and a value cell filled by its start
    procedure. `Start` walks the records in ascending order and starts those
    not yet started; `Stop` walks them in descending order and stops those
    not yet stopped. Both emit one lifecycle event per record they visit and
    abort on the first procedure that throws.

    The user procedures are not modelled: a pass takes, per record order, the
    outcome its procedure would have. The event emitter is a ghost trace. */
module Mount {
  import opened Common

  datatype Status = Started | Stopped | Error

  /** One step of a pass, as it appears in the ghost trace. */
  datatype Event =
    | Emitted(phase: Phase, order: nat)          // emitter.emit('start' | 'stop', state)
    | StartCalled(order: nat)                     // the user start procedure ran
    | StopCalled(order: nat, arg: Option<Value>)  // the user stop procedure ran on this value

  /** The part of a record that a pass reads and writes. */
  datatype View = View(order: nat, status: Status, value: Option<Value>, hasStop: bool)

  /** The status a pass brings records to. */
  function Goal(ph: Phase): Status
  {
    if ph == Starting then Started else Stopped
  }

  /** The pass acts on a record whose status differs from its goal. */
  predicate Acts(ph: Phase, v: View)
  {
    v.status != Goal(ph)
  }

  /** The pass runs the record's user procedure; a missing stop function is a no-op. */
  predicate Invokes(ph: Phase, v: View)
  {
    Acts(ph, v) && (ph == Starting || v.hasStop)
  }

  /** The trace entry for running the record's user procedure. */
  function CallEvent(ph: Phase, v: View): Event
  {
    if ph == Starting then StartCalled(v.order) else StopCalled(v.order, v.value)
  }

  /** The orders of the lifecycle events in a trace. */
  function Emits(evs: seq<Event>): seq<nat>
  {
    if evs == [] then []
    else (if evs[0].Emitted? then [evs[0].order] else []) + Emits(evs[1..])
  }

  /** The orders of the records whose user procedure ran, in trace order. */
  function Calls(evs: seq<Event>): seq<nat>
  {
    if evs == [] then []
    else (if evs[0].Emitted? then [] else [evs[0].order]) + Calls(evs[1..])
  }

  lemma {:induction false} EmitsCallsAppend(a: seq<Event>, b: seq<Event>)
    ensures Emits(a + b) == Emits(a) + Emits(b)
    ensures Calls(a + b) == Calls(a) + Calls(b)
  {
    if a != [] {
      assert (a + b)[1..] == a[1..] + b;
      EmitsCallsAppend(a[1..], b);
    } else {
      assert a + b == b;
    }
  }

  /** The orders of `vs`, in sequence order. */
  function Orders(vs: seq<View>): (r: seq<nat>)
    ensures |r| == |vs|
    ensures forall i :: 0 <= i < |vs| ==> r[i] == vs[i].order
    decreases |vs|
  {
    if vs == [] then [] else Orders(vs[..|vs| - 1]) + [vs[|vs| - 1].order]
  }

  /** The orders of the records of `vs` whose procedure a pass runs, in pass order. */
  function InvokedOrders(ph: Phase, vs: seq<View>): seq<nat>
    decreases |vs|
  {
    if vs == [] then []
    else
      var n := |vs| - 1;
      InvokedOrders(ph, vs[..n]) + (if Invokes(ph, vs[n]) then [vs[n].order] else [])
  }

  /** What visiting one record does. */
  datatype Visit = Visit(view: View, events: seq<Event>, failed: bool)

  /** One iteration of the loop in `start` or `stop`: emit the event, then, if
      the status is not yet the goal, await the procedure and set the status. */
  function VisitRecord(ph: Phase, v: View, outcome: nat -> Outcome): (w: Visit)
    ensures w.events == [Emitted(ph, v.order)] + if Invokes(ph, v) then [CallEvent(ph, v)] else []
    ensures w.failed <==> Invokes(ph, v) && outcome(v.order).Threw?
    ensures w.failed || !Acts(ph, v) ==> w.view == v
    ensures !w.failed ==> w.view.status == Goal(ph)
    ensures w.view.order == v.order && w.view.hasStop == v.hasStop
    ensures ph == Stopping ==> w.view.value == v.value
    ensures ph == Starting && Acts(ph, v) && !w.failed ==> w.view.value == Some(outcome(v.order).value)
  {
    var emitted := [Emitted(ph, v.order)];
    if !Acts(ph, v) then
      Visit(v, emitted, false)
    else if ph == Stopping && !v.hasStop then
      Visit(v.(status := Stopped), emitted, false)
    else
      var evs := emitted + [CallEvent(ph, v)];
      match outcome(v.order)
      case Threw => Visit(v, evs, true)
      case Returned(x) =>
        if ph == Starting then Visit(v.(status := Started, value := Some(x)), evs, false)
        else Visit(v.(status := Stopped), evs, false)
  }

  /** A visit emits exactly one event, for the visited record, and runs at most its procedure. */
  lemma VisitTrace(ph: Phase, v: View, outcome: nat -> Outcome)
    ensures var w := VisitRecord(ph, v, outcome);
            Emits(w.events) == [v.order] && Calls(w.events) == if Invokes(ph, v) then [v.order] else []
  {
    var w := VisitRecord(ph, v, outcome);
    var e := [Emitted(ph, v.order)];
    assert Emits(e) == [v.order] && Calls(e) == [];
    if Invokes(ph, v) {
      var c := [CallEvent(ph, v)];
      assert Emits(c) == [] && Calls(c) == [v.order];
      EmitsCallsAppend(e, c);
    } else {
      assert w.events == e;
    }
  }

  /** The effect of one pass over `vs`, taken in pass order. `failedAt` is the
      index of the record whose procedure threw, if any. */
  datatype PassResult = PassResult(views: seq<View>, events: seq<Event>, failedAt: Option<nat>)

  /** Number of records a pass visited: all of them, or up to and including the failing one. */
  function Visited(p: PassResult, n: nat): nat
  {
    if p.failedAt.Some? then p.failedAt.value + 1 else n
  }

  /** Number of records a pass completed: all of them, or those before the failing one. */
  function Completed(p: PassResult, n: nat): nat
  {
    if p.failedAt.Some? then p.failedAt.value else n
  }

  function RunPass(ph: Phase, vs: seq<View>, outcome: nat -> Outcome): (p: PassResult)
    ensures |p.views| == |vs|
    ensures p.failedAt.Some? ==> p.failedAt.value < |vs|
    decreases |vs|
  {
    if vs == [] then PassResult([], [], None)
    else
      var n := |vs| - 1;
      var p := RunPass(ph, vs[..n], outcome);
      if p.failedAt.Some? then PassResult(p.views + [vs[n]], p.events, p.failedAt)
      else
        var w := VisitRecord(ph, vs[n], outcome);
        PassResult(p.views + [w.view], p.events + w.events, if w.failed then Some(n) else None)
  }

  /** Once a prefix has failed, the pass visits nothing further. */
  lemma {:induction false} PassStopsAtFailure(ph: Phase, vs: seq<View>, outcome: nat -> Outcome, k: nat)
    requires k <= |vs|
    requires RunPass(ph, vs[..k], outcome).failedAt.Some?
    ensures var q := RunPass(ph, vs[..k], outcome);
            var p := RunPass(ph, vs, outcome);
            p.views == q.views + vs[k..] && p.events == q.events && p.failedAt == q.failedAt
    decreases |vs|
  {
    if k == |vs| {
      assert vs[..k] == vs;
      assert vs[k..] == [];
    } else {
      var n := |vs| - 1;
      var q := RunPass(ph, vs[..k], outcome);
      assert vs[..n][..k] == vs[..k];
      PassStopsAtFailure(ph, vs[..n], outcome, k);
      var r := RunPass(ph, vs[..n], outcome);
      var p := RunPass(ph, vs, outcome);
      assert r.views == q.views + vs[..n][k..];
      assert p.views == r.views + [vs[n]];
      assert vs[..n][k..] + [vs[n]] == vs[k..];
    }
  }

  /** A pass over one more record, when the shorter pass has not failed, is
      the shorter pass followed by one visit. */
  lemma PassExtend(ph: Phase, vs: seq<View>, i: nat, outcome: nat -> Outcome)
    requires i < |vs|
    requires RunPass(ph, vs[..i], outcome).failedAt.None?
    ensures var q := RunPass(ph, vs[..i], outcome);
            var w := VisitRecord(ph, vs[i], outcome);
            RunPass(ph, vs[..i + 1], outcome) ==
              PassResult(q.views + [w.view], q.events + w.events, if w.failed then Some(i) else None)
  {
    assert vs[..i + 1][..i] == vs[..i];
  }

  /** A pass over `vs` that has failed within, or run through, its first `i`
      records is the pass over those records, the rest left untouched. */
  lemma PassFinished(ph: Phase, vs: seq<View>, i: nat, outcome: nat -> Outcome)
    requires i <= |vs|
    requires i == |vs| || RunPass(ph, vs[..i], outcome).failedAt.Some?
    ensures var q := RunPass(ph, vs[..i], outcome);
            var p := RunPass(ph, vs, outcome);
            && p.events == q.events && p.failedAt == q.failedAt
            && (forall j :: 0 <= j < i ==> p.views[j] == q.views[j])
            && (forall j :: i <= j < |vs| ==> p.views[j] == vs[j])
  {
    if i == |vs| {
      assert vs[..i] == vs;
    } else {
      var q := RunPass(ph, vs[..i], outcome);
      PassStopsAtFailure(ph, vs, outcome, i);
      var p := RunPass(ph, vs, outcome);
      forall j | i <= j < |vs| ensures p.views[j] == vs[j] {
        assert p.views[j] == vs[i..][j - i];
      }
    }
  }

  /** What a pass does to each record: the completed ones are as one visit
      leaves them, the failing one threw, and the rest are untouched. */
  lemma {:induction false} PassViews(ph: Phase, vs: seq<View>, outcome: nat -> Outcome)
    ensures var p := RunPass(ph, vs, outcome);
            var k := Completed(p, |vs|);
            && (forall j :: 0 <= j < k ==>
                  !VisitRecord(ph, vs[j], outcome).failed && p.views[j] == VisitRecord(ph, vs[j], outcome).view)
            && (p.failedAt.Some? ==> VisitRecord(ph, vs[k], outcome).failed)
            && (forall j :: k <= j < |vs| ==> p.views[j] == vs[j])
    decreases |vs|
  {
    if vs != [] {
      var n := |vs| - 1;
      var q := RunPass(ph, vs[..n], outcome);
      PassViews(ph, vs[..n], outcome);
      var p := RunPass(ph, vs, outcome);
      assert forall j :: 0 <= j < n ==> vs[..n][j] == vs[j];
      if q.failedAt.Some? {
        assert p.views == q.views + [vs[n]] && p.failedAt == q.failedAt;
        assert forall j :: 0 <= j < n ==> p.views[j] == q.views[j];
      } else {
        var w := VisitRecord(ph, vs[n], outcome);
        assert p.views == q.views + [w.view];
        assert forall j :: 0 <= j < n ==> p.views[j] == q.views[j];
      }
    }
  }

  /** The trace of a pass: one event per visited record and one call per
      procedure run, both in pass order. */
  lemma {:induction false} PassTrace(ph: Phase, vs: seq<View>, outcome: nat -> Outcome)
    ensures var p := RunPass(ph, vs, outcome);
            && Emits(p.events) == Orders(vs[..Visited(p, |vs|)])
            && Calls(p.events) == InvokedOrders(ph, vs[..Visited(p, |vs|)])
    decreases |vs|
  {
    var p := RunPass(ph, vs, outcome);
    if vs == [] {
      assert vs[..0] == [];
      assert Orders([]) == [];
    } else {
      var n := |vs| - 1;
      var q := RunPass(ph, vs[..n], outcome);
      PassTrace(ph, vs[..n], outcome);
      if q.failedAt.Some? {
        var k := q.failedAt.value;
        assert p.events == q.events && p.failedAt == q.failedAt;
        assert vs[..n][..k + 1] == vs[..k + 1];
      } else {
        var w := VisitRecord(ph, vs[n], outcome);
        assert p.events == q.events + w.events;
        assert vs[..n][..n] == vs[..n];
        assert vs[..|vs|] == vs;
        assert Visited(p, |vs|) == |vs|;
        EmitsCallsAppend(q.events, w.events);
        VisitTrace(ph, vs[n], outcome);
        assert Orders(vs) == Orders(vs[..n]) + [vs[n].order];
        assert InvokedOrders(ph, vs) == InvokedOrders(ph, vs[..n]) + (if Invokes(ph, vs[n]) then [vs[n].order] else []);
      }
    }
  }

  /** A pass that resolves brings every record to its goal status and runs
      exactly the procedures of the records not already there, in pass order. */
  lemma PassSucceeds(ph: Phase, vs: seq<View>, outcome: nat -> Outcome)
    requires RunPass(ph, vs, outcome).failedAt.None?
    ensures var p := RunPass(ph, vs, outcome);
            && (forall j :: 0 <= j < |vs| ==> p.views[j].status == Goal(ph))
            && Emits(p.events) == Orders(vs)
            && Calls(p.events) == InvokedOrders(ph, vs)
  {
    PassViews(ph, vs, outcome);
    PassTrace(ph, vs, outcome);
    assert vs[..|vs|] == vs;
  }

  /** A pass that rejects: the failing record's procedure ran and threw; the
      records before it reached the goal; it and all records after it are
      unchanged; no record after it was visited. */
  lemma PassAborts(ph: Phase, vs: seq<View>, outcome: nat -> Outcome)
    requires RunPass(ph, vs, outcome).failedAt.Some?
    ensures var p := RunPass(ph, vs, outcome);
            var k := p.failedAt.value;
            && Invokes(ph, vs[k]) && outcome(vs[k].order).Threw?
            && (forall j :: 0 <= j < k ==> p.views[j].status == Goal(ph))
            && (forall j :: k <= j < |vs| ==> p.views[j] == vs[j])
            && Emits(p.events) == Orders(vs[..k + 1])
  {
    PassViews(ph, vs, outcome);
    PassTrace(ph, vs, outcome);
  }

  /** No pass ever assigns the status "error": each record keeps its status or reaches the goal. */
  lemma {:induction false} PassNeverAssignsError(ph: Phase, vs: seq<View>, outcome: nat -> Outcome)
    ensures var p := RunPass(ph, vs, outcome);
            forall j :: 0 <= j < |vs| ==> p.views[j].status == vs[j].status || p.views[j].status == Goal(ph)
  {
    PassViews(ph, vs, outcome);
  }

  /** A start pass stores the result of each start it completes; nothing else,
      and no stop pass, changes a record's value. */
  lemma {:induction false} PassValues(ph: Phase, vs: seq<View>, outcome: nat -> Outcome)
    ensures var p := RunPass(ph, vs, outcome);
            forall j :: 0 <= j < |vs| ==>
              p.views[j].value ==
                if ph == Starting && j < Completed(p, |vs|) && Acts(ph, vs[j]) && outcome(vs[j].order).Returned?
                then Some(outcome(vs[j].order).value) else vs[j].value
  {
    PassViews(ph, vs, outcome);
  }

  /** A pass over records all at its goal runs no procedure and changes nothing,
      yet still emits one event per record. */
  lemma {:induction false} PassAtGoalIsNoop(ph: Phase, vs: seq<View>, outcome: nat -> Outcome)
    requires forall j :: 0 <= j < |vs| ==> vs[j].status == Goal(ph)
    ensures var p := RunPass(ph, vs, outcome);
            p.views == vs && p.failedAt.None? && Calls(p.events) == [] && Emits(p.events) == Orders(vs)
  {
    PassViews(ph, vs, outcome);
    PassTrace(ph, vs, outcome);
    assert vs[..|vs|] == vs;
    NoneInvoked(ph, vs);
  }

  lemma {:induction false} NoneInvoked(ph: Phase, vs: seq<View>)
    requires forall j :: 0 <= j < |vs| ==> vs[j].status == Goal(ph)
    ensures InvokedOrders(ph, vs) == []
    decreases |vs|
  {
    if vs != [] {
      NoneInvoked(ph, vs[..|vs| - 1]);
    }
  }

  /** Idempotency: a second pass of the same kind after one that resolved runs
      no procedure and changes no record. */
  lemma RepeatedPassIsNoop(ph: Phase, vs: seq<View>, first: nat -> Outcome, second: nat -> Outcome)
    requires RunPass(ph, vs, first).failedAt.None?
    ensures var p := RunPass(ph, vs, first);
            var q := RunPass(ph, p.views, second);
            q.views == p.views && q.failedAt.None? && Calls(q.events) == []
  {
    var p := RunPass(ph, vs, first);
    PassSucceeds(ph, vs, first);
    PassAtGoalIsNoop(ph, p.views, second);
  }

  lemma {:induction false} InvokedOrdersBounded(ph: Phase, vs: seq<View>, b: nat, up: bool)
    requires forall a :: 0 <= a < |vs| ==> if up then vs[a].order < b else vs[a].order > b
    ensures forall i :: 0 <= i < |InvokedOrders(ph, vs)| ==>
              var x := InvokedOrders(ph, vs)[i]; if up then x < b else x > b
    decreases |vs|
  {
    if vs != [] {
      InvokedOrdersBounded(ph, vs[..|vs| - 1], b, up);
    }
  }

  /** Procedures run in pass order: if the pass visits records in strictly
      ascending (descending) order, the procedures run in that order too. */
  lemma {:induction false} InvokedOrdersMonotone(ph: Phase, vs: seq<View>, up: bool)
    requires Monotone(Orders(vs), up)
    ensures Monotone(InvokedOrders(ph, vs), up)
    decreases |vs|
  {
    if vs != [] {
      var n := |vs| - 1;
      assert Orders(vs[..n]) == Orders(vs)[..n];
      InvokedOrdersMonotone(ph, vs[..n], up);
      forall a | 0 <= a < n
        ensures if up then vs[..n][a].order < vs[n].order else vs[..n][a].order > vs[n].order
      {
        assert Orders(vs)[a] == vs[a].order && Orders(vs)[n] == vs[n].order;
      }
      InvokedOrdersBounded(ph, vs[..n], vs[n].order, up);
    }
  }

  /** Events and procedure calls of a pass follow the pass order. */
  lemma PassCallsMonotone(ph: Phase, vs: seq<View>, outcome: nat -> Outcome, up: bool)
    requires Monotone(Orders(vs), up)
    ensures var p := RunPass(ph, vs, outcome);
            Monotone(Emits(p.events), up) && Monotone(Calls(p.events), up)
  {
    var p := RunPass(ph, vs, outcome);
    var m := Visited(p, |vs|);
    PassTrace(ph, vs, outcome);
    assert Orders(vs[..m]) == Orders(vs)[..m];
    InvokedOrdersMonotone(ph, vs[..m], up);
  }

  /** A state record (the object built by `defstate`). */
  class State {
    const name: string
    const order: nat
    const hasStop: bool      // a stop function was supplied
    var status: Status
    var value: Option<Value> // the value cell; None while unset

    constructor (name: string, order: nat, hasStop: bool)
      ensures this.name == name && this.order == order && this.hasStop == hasStop
      ensures status == Stopped && value == None
    {
      this.name := name;
      this.order := order;
      this.hasStop := hasStop;
      status := Stopped;
      value := None;
    }

    /** The accessor `defstate` returns: the record's current value. */
    function Get(): Option<Value>
      reads this
    {
      value
    }

    function Snapshot(): View
      reads this
    {
      View(order, status, value, hasStop)
    }
  }

  function OrderOf(r: State): nat
  {
    r.order
  }

  function Views(rs: seq<State>): (vs: seq<View>)
    reads rs
    ensures |vs| == |rs|
    ensures forall i :: 0 <= i < |rs| ==> vs[i] == rs[i].Snapshot()
    decreases |rs|
  {
    if rs == [] then [] else Views(rs[..|rs| - 1]) + [rs[|rs| - 1].Snapshot()]
  }

  /** `orderedStates`: every registered record exactly once, strictly ascending by order. */
  function OrderedStates(m: map<string, State>): (r: seq<State>)
    requires KeysDistinct(m.Values, OrderOf)
    ensures forall x :: x in m.Values ==> x in r
    ensures forall i :: 0 <= i < |r| ==> r[i] in m.Values
    ensures InOrder(r, true)
  {
    SortByKey(m.Values, OrderOf)
  }

  /** The records of `rs` are listed in strictly ascending (`up`) or
      strictly descending (`!up`) order. */
  ghost predicate InOrder(rs: seq<State>, up: bool)
  {
    OrderedBy(rs, OrderOf, up)
  }

  /** Reversing records listed in ascending order lists them in descending order. */
  lemma ReversedInOrder(rs: seq<State>)
    requires InOrder(rs, true)
    ensures InOrder(Reversed(rs), false)
  {
  }

  /** What a pass over records listed in strictly monotone order promises:
      the records are distinct, the procedures run in that order, and a pass
      that resolves brings every record to the goal. */
  lemma PassSummary(ph: Phase, rs: seq<State>, vs: seq<View>, outcome: nat -> Outcome, up: bool)
    requires InOrder(rs, up)
    requires |vs| == |rs| && forall j :: 0 <= j < |rs| ==> vs[j].order == rs[j].order
    ensures forall i, j :: 0 <= i < j < |rs| ==> rs[i] != rs[j]
    ensures var p := RunPass(ph, vs, outcome);
            && Monotone(Calls(p.events), up)
            && (p.failedAt.None? ==> forall j :: 0 <= j < |vs| ==> p.views[j].status == Goal(ph))
  {
    forall i, j | 0 <= i < j < |rs| ensures rs[i] != rs[j] {
      assert rs[i].order != rs[j].order;
    }
    var os := Orders(vs);
    forall i, j | 0 <= i < j < |os| ensures if up then os[i] < os[j] else os[i] > os[j] {
      assert os[i] == rs[i].order && os[j] == rs[j].order;
    }
    PassCallsMonotone(ph, vs, outcome, up);
    if RunPass(ph, vs, outcome).failedAt.None? {
      PassSucceeds(ph, vs, outcome);
    }
  }

  /** What the registry keeps true: one record built per sequence number, in
      order; each name maps to a record carrying that name and an order
      already handed out; and no two registered records share an order. */
  ghost predicate RegistryInvariant(stateSeq: nat, defined: seq<State>, m: map<string, State>)
  {
    && |defined| == stateSeq
    && (forall i :: 0 <= i < |defined| ==> defined[i].order == i + 1)
    && (forall n :: n in m ==> m[n].name == n && m[n] in defined && 1 <= m[n].order <= stateSeq)
    && KeysDistinct(m.Values, OrderOf)
  }

  /** Registering a record with the next order under its name keeps the invariant. */
  lemma DefineKeepsInvariant(stateSeq: nat, defined: seq<State>, m: map<string, State>, s: State)
    requires RegistryInvariant(stateSeq, defined, m)
    requires s.order == stateSeq + 1
    ensures RegistryInvariant(stateSeq + 1, defined + [s], m[s.name := s])
  {
  }

  /** The process-wide registry: the sequence counter and the name-keyed records. */
  class Registry {
    var stateSeq: nat
    var registeredStates: map<string, State>
    ghost var defined: seq<State>    // every record ever built, in registration order
    ghost var warnings: seq<string>  // names whose registration replaced a record

    ghost predicate Valid()
      reads this
    {
      RegistryInvariant(stateSeq, defined, registeredStates)
    }

    constructor ()
      ensures Valid()
      ensures stateSeq == 0 && registeredStates == map[]
      ensures defined == [] && warnings == []
    {
      stateSeq := 0;
      registeredStates := map[];
      defined := [];
      warnings := [];
    }

    /** `nextStateSeq`: increment the counter and return it. */
    method NextStateSeq() returns (n: nat)
      modifies this`stateSeq
      ensures stateSeq == old(stateSeq) + 1 && n == stateSeq
    {
      stateSeq := stateSeq + 1;
      n := stateSeq;
    }

    /** `defstate`: build a stopped record with the next order, store it under
        `name` (warning if that replaces a record) and return it; the record's
        `Get` is the accessor. */
    method Defstate(name: string, hasStop: bool) returns (s: State)
      requires Valid()
      modifies this
      ensures Valid()
      ensures fresh(s) && s.name == name && s.hasStop == hasStop
      ensures s.status == Stopped && s.value == None && s.Get() == None
      ensures s.order == old(stateSeq) + 1 == stateSeq
      ensures registeredStates == old(registeredStates)[name := s]
      ensures defined == old(defined) + [s]
      ensures warnings == old(warnings) + if name in old(registeredStates) then [name] else []
    {
      if name in registeredStates {
        warnings := warnings + [name];
      }
      var order := NextStateSeq();
      s := new State(name, order, hasStop);
      DefineKeepsInvariant(stateSeq - 1, defined, registeredStates, s);
      defined := defined + [s];
      registeredStates := registeredStates[name := s];
    }

    /** `getState`: the value of the record registered under `name`; an
        unknown name fails (the source dereferences a missing entry). */
    function GetState(name: string): (r: Option<Option<Value>>)
      reads this, registeredStates.Values
      ensures r.None? <==> name !in registeredStates
      ensures r.Some? ==> r.value == registeredStates[name].Get()
    {
      if name in registeredStates then Some(registeredStates[name].value) else None
    }

    /** The registered records, ascending by order (`orderedStates()`). */
    function Records(): (rs: seq<State>)
      reads this
      requires Valid()
      ensures forall r :: r in registeredStates.Values ==> r in rs
      ensures forall i :: 0 <= i < |rs| ==> rs[i] in registeredStates.Values
      ensures InOrder(rs, true)
    {
      OrderedStates(registeredStates)
    }

    /** `start`: visit the records in ascending order, starting each one not
        yet started; resolves (`ok`) unless a start procedure throws. `events`
        is what the pass emitted and ran. */
    method Start(outcome: nat -> Outcome) returns (ok: bool, ghost events: seq<Event>)
      requires Valid()
      modifies Records()
      ensures var rs := old(Records());
              var p := RunPass(Starting, old(Views(rs)), outcome);
              && (forall i :: 0 <= i < |rs| ==> rs[i].Snapshot() == p.views[i])
              && events == p.events && ok == p.failedAt.None?
      ensures Monotone(Calls(events), true)
      ensures ok ==> forall r :: r in old(Records()) ==> r.status == Started
    {
      ok, events := RunInOrder(Starting, Records(), true, outcome);
    }

    /** `stop`: visit the records in descending order, stopping each one not
        yet stopped; resolves (`ok`) unless a stop procedure throws. */
    method Stop(outcome: nat -> Outcome) returns (ok: bool, ghost events: seq<Event>)
      requires Valid()
      modifies Records()
      ensures var rs := Reversed(old(Records()));
              var p := RunPass(Stopping, old(Views(rs)), outcome);
              && (forall i :: 0 <= i < |rs| ==> rs[i].Snapshot() == p.views[i])
              && events == p.events && ok == p.failedAt.None?
      ensures Monotone(Calls(events), false)
      ensures ok ==> forall r :: r in old(Records()) ==> r.status == Stopped
    {
      var ordered := Records();
      ReversedInOrder(ordered);
      ReversedElements(ordered);
      ok, events := RunInOrder(Stopping, Reversed(ordered), false, outcome);
    }
  }

  /** A pass over records listed in strictly monotone order: what `Walk`
      does, together with what that order lets one conclude about it. */
  method RunInOrder(ph: Phase, rs: seq<State>, up: bool, outcome: nat -> Outcome)
    returns (ok: bool, ghost events: seq<Event>)
    requires InOrder(rs, up)
    modifies rs
    ensures var p := RunPass(ph, old(Views(rs)), outcome);
            && (forall i :: 0 <= i < |rs| ==> rs[i].Snapshot() == p.views[i])
            && events == p.events && ok == p.failedAt.None?
    ensures Monotone(Calls(events), up)
    ensures ok ==> forall r :: r in rs ==> r.status == Goal(ph)
  {
    ghost var vs := Views(rs);
    PassSummary(ph, rs, vs, outcome, up);
    var failedAt;
    failedAt, events := Walk(ph, rs, vs, outcome);
    ok := failedAt.None?;
  }

  /** One iteration of the loop of `start` or `stop`, on record `r`. */
  method VisitOne(ph: Phase, r: State, outcome: nat -> Outcome) returns (failed: bool, ghost events: seq<Event>)
    modifies r
    ensures var w := VisitRecord(ph, old(r.Snapshot()), outcome);
            r.Snapshot() == w.view && events == w.events && failed == w.failed
  {
    events := [Emitted(ph, r.order)];
    failed := false;
    if r.status != Goal(ph) {
      if ph == Starting {
        events := events + [StartCalled(r.order)];
        var o := outcome(r.order);
        if o.Threw? {
          return true, events;
        }
        r.value := Some(o.value);
        r.status := Started;
      } else {
        if r.hasStop {
          events := events + [StopCalled(r.order, r.value)];
          if outcome(r.order).Threw? {
            return true, events;
          }
        }
        r.status := Stopped;
      }
    }
  }

  /** The state of the loop of `start` and `stop` after `i` records: the
      records before `i` hold what the pass over `vs[..i]` left, the others
      still hold `vs`. */
  ghost predicate Walked(ph: Phase, rs: seq<State>, vs: seq<View>, i: nat, outcome: nat -> Outcome)
    reads rs
  {
    && i <= |rs| == |vs|
    && (forall j :: 0 <= j < i ==> rs[j].Snapshot() == RunPass(ph, vs[..i], outcome).views[j])
    && (forall j :: i <= j < |rs| ==> rs[j].Snapshot() == vs[j])
  }

  /** One iteration of the loop: visit record `i` and extend the pass over
      `vs[..i]` to the pass over `vs[..i + 1]`. */
  method Advance(ph: Phase, rs: seq<State>, ghost vs: seq<View>, i: nat, outcome: nat -> Outcome)
    returns (failed: bool, next: nat, ghost step: seq<Event>)
    requires forall a, b :: 0 <= a < b < |rs| ==> rs[a] != rs[b]
    requires i < |rs| && Walked(ph, rs, vs, i, outcome)
    requires RunPass(ph, vs[..i], outcome).failedAt.None?
    modifies rs[i]
    ensures next == i + 1 && Walked(ph, rs, vs, next, outcome)
    ensures var p := RunPass(ph, vs[..next], outcome);
            p.events == RunPass(ph, vs[..i], outcome).events + step
            && p.failedAt == if failed then Some(i) else None
  {
    ghost var q := RunPass(ph, vs[..i], outcome);
    PassExtend(ph, vs, i, outcome);
    failed, step := VisitOne(ph, rs[i], outcome);
    next := i + 1;
    ghost var p := RunPass(ph, vs[..next], outcome);
    assert p.views == q.views + [rs[i].Snapshot()];
    forall j | 0 <= j < i ensures rs[j].Snapshot() == p.views[j] {
      assert rs[j] != rs[i];
    }
  }

  /** The loop of `start` and `stop` over `rs`, in the given order; `vs` is
      what the records hold before the pass. */
  method Walk(ph: Phase, rs: seq<State>, ghost vs: seq<View>, outcome: nat -> Outcome)
    returns (failedAt: Option<nat>, ghost events: seq<Event>)
    requires forall i, j :: 0 <= i < j < |rs| ==> rs[i] != rs[j]
    requires |vs| == |rs| && forall j :: 0 <= j < |rs| ==> rs[j].Snapshot() == vs[j]
    modifies rs
    ensures var p := RunPass(ph, vs, outcome);
            && (forall j :: 0 <= j < |rs| ==> rs[j].Snapshot() == p.views[j])
            && events == p.events && failedAt == p.failedAt
  {
    failedAt, events := None, [];
    var i: nat := 0;
    while i < |rs| && failedAt.None?
      invariant Walked(ph, rs, vs, i, outcome)
      invariant failedAt == RunPass(ph, vs[..i], outcome).failedAt
      invariant events == RunPass(ph, vs[..i], outcome).events
    {
      var failed, next;
      ghost var step;
      failed, next, step := Advance(ph, rs, vs, i, outcome);
      events := events + step;
      if failed {
        failedAt := Some(i);
      }
      i := next;
    }
    PassFinished(ph, vs, i, outcome);
  }
}
