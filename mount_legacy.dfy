/** The older, status-free registry and orchestrator (mount.ts).

    Records carry a name, a registration number and a value cell, but no
    status: every `Start` runs every start procedure and every `Stop` runs
    every stop procedure, whatever ran before. Re-registering a name
    silently replaces its record. A pass aborts on the first procedure that
    throws. As in `Mount`, the user procedures are not modelled: a pass takes,
    per record order, the outcome its procedure would have, and returns the
    procedures it ran as a ghost trace. */
module MountLegacy {
  import opened Common

  /** A user procedure run by a pass, as it appears in the ghost trace. */
  datatype Call =
    | StartCalled(order: nat)
    | StopCalled(order: nat, arg: Option<Value>)  // the user stop procedure ran on this value

  /** The part of a record that a pass reads and writes. */
  datatype View = View(order: nat, value: Option<Value>, hasStop: bool)

  /** The user procedure the wrapper of record `v` runs: always the start
      procedure; the stop procedure only when one was supplied. */
  function CallsOf(ph: Phase, v: View): seq<Call>
  {
    if ph == Starting then [StartCalled(v.order)]
    else if v.hasStop then [StopCalled(v.order, v.value)]
    else []
  }

  /** The procedures a pass over `vs` runs when none throws, in pass order. */
  function Invoked(ph: Phase, vs: seq<View>): seq<Call>
    decreases |vs|
  {
    if vs == [] then [] else Invoked(ph, vs[..|vs| - 1]) + CallsOf(ph, vs[|vs| - 1])
  }

  /** What visiting one record does. */
  datatype Visit = Visit(view: View, calls: seq<Call>, failed: bool)

  /** One iteration of the loop in `start` or `stop`: await the record's
      wrapper. The start wrapper stores what the start procedure returns;
      the stop wrapper passes the stored value to the stop procedure. */
  function VisitRecord(ph: Phase, v: View, outcome: nat -> Outcome): (w: Visit)
    ensures w.calls == CallsOf(ph, v)
    ensures w.failed <==> (ph == Starting || v.hasStop) && outcome(v.order).Threw?
    ensures w.view.order == v.order && w.view.hasStop == v.hasStop
    ensures w.view.value ==
              if ph == Starting && outcome(v.order).Returned? then Some(outcome(v.order).value) else v.value
  {
    if ph == Starting then
      match outcome(v.order)
      case Threw => Visit(v, [StartCalled(v.order)], true)
      case Returned(x) => Visit(v.(value := Some(x)), [StartCalled(v.order)], false)
    else if v.hasStop then Visit(v, [StopCalled(v.order, v.value)], outcome(v.order).Threw?)
    else Visit(v, [], false)
  }

  /** The effect of one pass over `vs`, taken in pass order. `failedAt` is the
      index of the record whose procedure threw, if any. */
  datatype PassResult = PassResult(views: seq<View>, calls: seq<Call>, failedAt: Option<nat>)

  /** Number of records a pass visited: all of them, or up to and including the failing one. */
  function Visited(p: PassResult, n: nat): nat
  {
    if p.failedAt.Some? then p.failedAt.value + 1 else n
  }

  function RunPass(ph: Phase, vs: seq<View>, outcome: nat -> Outcome): (p: PassResult)
    ensures |p.views| == |vs|
    ensures p.failedAt.Some? ==> p.failedAt.value < |vs|
    decreases |vs|
  {
    if vs == [] then PassResult([], [], None)
    else
      var n := |vs| - 1;
      var p := RunPass(ph, vs[..n], outcome);
      if p.failedAt.Some? then PassResult(p.views + [vs[n]], p.calls, p.failedAt)
      else
        var w := VisitRecord(ph, vs[n], outcome);
        PassResult(p.views + [w.view], p.calls + w.calls, if w.failed then Some(n) else None)
  }

  /** Once a prefix has failed, the pass visits nothing further. */
  lemma {:induction false} PassStopsAtFailure(ph: Phase, vs: seq<View>, outcome: nat -> Outcome, k: nat)
    requires k <= |vs|
    requires RunPass(ph, vs[..k], outcome).failedAt.Some?
    ensures var q := RunPass(ph, vs[..k], outcome);
            var p := RunPass(ph, vs, outcome);
            p.views == q.views + vs[k..] && p.calls == q.calls && p.failedAt == q.failedAt
    decreases |vs|
  {
    if k == |vs| {
      assert vs[..k] == vs;
      assert vs[k..] == [];
    } else {
      var q := RunPass(ph, vs[..k], outcome);
      assert vs[..|vs| - 1][..k] == vs[..k];
      PassStopsAtFailure(ph, vs[..|vs| - 1], outcome, k);
      var r := RunPass(ph, vs[..|vs| - 1], outcome);
      var p := RunPass(ph, vs, outcome);
      assert r.views == q.views + vs[..|vs| - 1][k..];
      assert p.views == r.views + [vs[|vs| - 1]];
      assert vs[..|vs| - 1][k..] + [vs[|vs| - 1]] == vs[k..];
    }
  }

  /** A pass over one more record, when the shorter pass has not failed, is
      the shorter pass followed by one visit. */
  lemma PassExtend(ph: Phase, vs: seq<View>, i: nat, outcome: nat -> Outcome)
    requires i < |vs|
    requires RunPass(ph, vs[..i], outcome).failedAt.None?
    ensures var q := RunPass(ph, vs[..i], outcome);
            var w := VisitRecord(ph, vs[i], outcome);
            var p := RunPass(ph, vs[..i + 1], outcome);
            && p.views == q.views + [w.view]
            && p.calls == q.calls + w.calls
            && p.failedAt == if w.failed then Some(i) else None
  {
    assert vs[..i + 1][..i] == vs[..i];
  }

  /** A pass over `vs` that has failed within, or run through, its first `i`
      records is the pass over those records, the rest left untouched. */
  lemma PassFinished(ph: Phase, vs: seq<View>, i: nat, outcome: nat -> Outcome)
    requires i <= |vs|
    requires i == |vs| || RunPass(ph, vs[..i], outcome).failedAt.Some?
    ensures var q := RunPass(ph, vs[..i], outcome);
            var p := RunPass(ph, vs, outcome);
            && p.calls == q.calls && p.failedAt == q.failedAt
            && (forall j :: 0 <= j < i ==> p.views[j] == q.views[j])
            && (forall j :: i <= j < |vs| ==> p.views[j] == vs[j])
  {
    if i == |vs| {
      assert vs[..i] == vs;
    } else {
      var q := RunPass(ph, vs[..i], outcome);
      PassStopsAtFailure(ph, vs, outcome, i);
      var p := RunPass(ph, vs, outcome);
      forall j | i <= j < |vs| ensures p.views[j] == vs[j] {
        assert p.views[j] == vs[i..][j - i];
      }
    }
  }

  /** What a pass does to each record: it visits records in pass order up to
      the first one whose procedure throws; the records before that one are as
      one visit leaves them, and it and the records after it are untouched. */
  lemma {:induction false} PassViews(ph: Phase, vs: seq<View>, outcome: nat -> Outcome)
    ensures var p := RunPass(ph, vs, outcome);
            var k := if p.failedAt.Some? then p.failedAt.value else |vs|;
            && (forall j :: 0 <= j < k ==>
                  !VisitRecord(ph, vs[j], outcome).failed && p.views[j] == VisitRecord(ph, vs[j], outcome).view)
            && (p.failedAt.Some? ==> VisitRecord(ph, vs[k], outcome).failed)
            && (forall j :: k <= j < |vs| ==> p.views[j] == vs[j])
    decreases |vs|
  {
    if vs != [] {
      var n := |vs| - 1;
      var q := RunPass(ph, vs[..n], outcome);
      PassViews(ph, vs[..n], outcome);
      var p := RunPass(ph, vs, outcome);
      assert forall j :: 0 <= j < n ==> vs[..n][j] == vs[j];
      if q.failedAt.Some? {
        assert p.views == q.views + [vs[n]] && p.failedAt == q.failedAt;
        assert forall j :: 0 <= j < n ==> p.views[j] == q.views[j];
      } else {
        var w := VisitRecord(ph, vs[n], outcome);
        assert p.views == q.views + [w.view];
        assert forall j :: 0 <= j < n ==> p.views[j] == q.views[j];
      }
    }
  }

  /** The trace of a pass: the procedures of the visited records, in pass order. */
  lemma {:induction false} PassTrace(ph: Phase, vs: seq<View>, outcome: nat -> Outcome)
    ensures var p := RunPass(ph, vs, outcome);
            p.calls == Invoked(ph, vs[..Visited(p, |vs|)])
    decreases |vs|
  {
    var p := RunPass(ph, vs, outcome);
    if vs == [] {
      assert vs[..0] == [];
    } else {
      var n := |vs| - 1;
      var q := RunPass(ph, vs[..n], outcome);
      PassTrace(ph, vs[..n], outcome);
      if q.failedAt.Some? {
        var k := q.failedAt.value;
        assert p.calls == q.calls && p.failedAt == q.failedAt;
        assert vs[..n][..k + 1] == vs[..k + 1];
      } else {
        var w := VisitRecord(ph, vs[n], outcome);
        assert p.calls == q.calls + w.calls;
        assert vs[..n][..n] == vs[..n];
        assert vs[..|vs|] == vs;
        assert Visited(p, |vs|) == |vs|;
        assert Invoked(ph, vs) == Invoked(ph, vs[..n]) + CallsOf(ph, vs[n]);
      }
    }
  }

  /** A pass that resolves runs every procedure of the pass (every start
      procedure; every supplied stop procedure, on the stored value), in pass
      order. A start pass stores each result; a stop pass changes nothing. */
  lemma {:induction false} PassSucceeds(ph: Phase, vs: seq<View>, outcome: nat -> Outcome)
    requires RunPass(ph, vs, outcome).failedAt.None?
    ensures var p := RunPass(ph, vs, outcome);
            && p.calls == Invoked(ph, vs)
            && (ph == Starting ==> forall j :: 0 <= j < |vs| ==>
                  outcome(vs[j].order).Returned? && p.views[j] == vs[j].(value := Some(outcome(vs[j].order).value)))
            && (ph == Stopping ==> p.views == vs)
  {
    PassViews(ph, vs, outcome);
    PassTrace(ph, vs, outcome);
    assert vs[..|vs|] == vs;
  }

  /** A pass that rejects stops at the first record whose procedure threw:
      the records before it are as their visit leaves them, it and the
      records after it are untouched, and no procedure after it ran. */
  lemma PassAborts(ph: Phase, vs: seq<View>, outcome: nat -> Outcome)
    requires RunPass(ph, vs, outcome).failedAt.Some?
    ensures var p := RunPass(ph, vs, outcome);
            var k := p.failedAt.value;
            && (ph == Starting || vs[k].hasStop) && outcome(vs[k].order).Threw?
            && (forall j :: 0 <= j < k ==> p.views[j] == VisitRecord(ph, vs[j], outcome).view)
            && (forall j :: k <= j < |vs| ==> p.views[j] == vs[j])
            && p.calls == Invoked(ph, vs[..k + 1])
  {
    PassViews(ph, vs, outcome);
    PassTrace(ph, vs, outcome);
  }

  lemma {:induction false} InvokedStartsIgnoreValues(vs: seq<View>, ws: seq<View>)
    requires |vs| == |ws| && forall j :: 0 <= j < |vs| ==> vs[j].order == ws[j].order
    ensures Invoked(Starting, vs) == Invoked(Starting, ws)
    decreases |vs|
  {
    if vs != [] {
      var n := |vs| - 1;
      InvokedStartsIgnoreValues(vs[..n], ws[..n]);
    }
  }

  /** No idempotency: a second start pass after one that resolved runs every
      start procedure again, in the same order as the first. */
  lemma {:induction false} RepeatedStartRunsAgain(vs: seq<View>, first: nat -> Outcome, second: nat -> Outcome)
    requires RunPass(Starting, vs, first).failedAt.None?
    ensures var p := RunPass(Starting, vs, first);
            var q := RunPass(Starting, p.views, second);
            && |p.calls| == |vs|
            && (forall j :: 0 <= j < |vs| ==> p.calls[j] == StartCalled(vs[j].order))
            && (q.failedAt.None? ==> q.calls == p.calls)
  {
    var p := RunPass(Starting, vs, first);
    PassSucceeds(Starting, vs, first);
    InvokedStartsOneEach(vs);
    if RunPass(Starting, p.views, second).failedAt.None? {
      PassSucceeds(Starting, p.views, second);
      InvokedStartsIgnoreValues(vs, p.views);
    }
  }

  /** A start pass runs one start procedure per record, in pass order. */
  lemma {:induction false} InvokedStartsOneEach(vs: seq<View>)
    ensures |Invoked(Starting, vs)| == |vs|
    ensures forall j :: 0 <= j < |vs| ==> Invoked(Starting, vs)[j] == StartCalled(vs[j].order)
    decreases |vs|
  {
    if vs != [] {
      InvokedStartsOneEach(vs[..|vs| - 1]);
    }
  }

  /** A record (the object built by `defstate`): no status, only the value cell. */
  class State {
    const name: string
    const order: nat
    const hasStop: bool      // a stop function was supplied
    var value: Option<Value> // the value cell; None while unset

    constructor (name: string, order: nat, hasStop: bool)
      ensures this.name == name && this.order == order && this.hasStop == hasStop
      ensures value == None
    {
      this.name := name;
      this.order := order;
      this.hasStop := hasStop;
      value := None;
    }

    /** The accessor `defstate` returns: the record's current value. */
    function Get(): Option<Value>
      reads this
    {
      value
    }

    function Snapshot(): View
      reads this
    {
      View(order, value, hasStop)
    }
  }

  function OrderOf(r: State): nat
  {
    r.order
  }

  function Views(rs: seq<State>): (vs: seq<View>)
    reads rs
    ensures |vs| == |rs|
    ensures forall i :: 0 <= i < |rs| ==> vs[i] == rs[i].Snapshot()
    decreases |rs|
  {
    if rs == [] then [] else Views(rs[..|rs| - 1]) + [rs[|rs| - 1].Snapshot()]
  }

  /** The records of `rs` are listed in strictly ascending (`up`) or
      strictly descending (`!up`) order. */
  ghost predicate InOrder(rs: seq<State>, up: bool)
  {
    OrderedBy(rs, OrderOf, up)
  }

  /** `orderedStates`: every registered record exactly once, strictly ascending by order. */
  function OrderedStates(m: map<string, State>): (r: seq<State>)
    requires KeysDistinct(m.Values, OrderOf)
    ensures forall x :: x in m.Values ==> x in r
    ensures forall i :: 0 <= i < |r| ==> r[i] in m.Values
    ensures InOrder(r, true)
  {
    SortByKey(m.Values, OrderOf)
  }

  /** Reversing records listed in ascending order lists them in descending order. */
  lemma ReversedInOrder(rs: seq<State>)
    requires InOrder(rs, true)
    ensures InOrder(Reversed(rs), false)
  {
  }

  /** What the registry keeps true: one record built per sequence number, in
      order; each name maps to a record carrying that name and an order
      already handed out; and no two registered records share an order. */
  ghost predicate RegistryInvariant(stateSeq: nat, defined: seq<State>, m: map<string, State>)
  {
    && |defined| == stateSeq
    && (forall i :: 0 <= i < |defined| ==> defined[i].order == i + 1)
    && (forall n :: n in m ==> m[n].name == n && m[n] in defined && 1 <= m[n].order <= stateSeq)
    && KeysDistinct(m.Values, OrderOf)
  }

  /** Registering a record with the next order under its name keeps the invariant. */
  lemma DefineKeepsInvariant(stateSeq: nat, defined: seq<State>, m: map<string, State>, s: State)
    requires RegistryInvariant(stateSeq, defined, m)
    requires s.order == stateSeq + 1
    ensures RegistryInvariant(stateSeq + 1, defined + [s], m[s.name := s])
  {
  }

  /** The process-wide registry: the sequence counter and the name-keyed records. */
  class Registry {
    var stateSeq: nat
    var registeredStates: map<string, State>
    ghost var defined: seq<State>    // every record ever built, in registration order

    ghost predicate Valid()
      reads this
    {
      RegistryInvariant(stateSeq, defined, registeredStates)
    }

    constructor ()
      ensures Valid()
      ensures stateSeq == 0 && registeredStates == map[] && defined == []
    {
      stateSeq := 0;
      registeredStates := map[];
      defined := [];
    }

    /** `nextStateSeq`: increment the counter and return it. */
    method NextStateSeq() returns (n: nat)
      modifies this`stateSeq
      ensures stateSeq == old(stateSeq) + 1 && n == stateSeq
    {
      stateSeq := stateSeq + 1;
      n := stateSeq;
    }

    /** `defstate`: build a record with an empty value cell and the next
        order, store it under `name`, silently replacing any record there,
        and return it; the record's `Get` is the accessor. */
    method Defstate(name: string, hasStop: bool) returns (s: State)
      requires Valid()
      modifies this
      ensures Valid()
      ensures fresh(s) && s.name == name && s.hasStop == hasStop && s.value == None && s.Get() == None
      ensures s.order == old(stateSeq) + 1 == stateSeq
      ensures forall r :: r in old(defined) ==> r.order < s.order
      ensures registeredStates == old(registeredStates)[name := s]
      ensures defined == old(defined) + [s]
    {
      var order := NextStateSeq();
      s := new State(name, order, hasStop);
      DefineKeepsInvariant(stateSeq - 1, defined, registeredStates, s);
      defined := defined + [s];
      registeredStates := registeredStates[name := s];
    }

    /** The registered records, ascending by order (`orderedStates()`). */
    function Records(): (rs: seq<State>)
      reads this
      requires Valid()
      ensures forall r :: r in registeredStates.Values ==> r in rs
      ensures forall i :: 0 <= i < |rs| ==> rs[i] in registeredStates.Values
      ensures InOrder(rs, true)
    {
      OrderedStates(registeredStates)
    }

    /** `start`: run every record's start wrapper in ascending order;
        resolves (`ok`) unless a start procedure throws. `calls` is what ran. */
    method Start(outcome: nat -> Outcome) returns (ok: bool, ghost calls: seq<Call>)
      requires Valid()
      modifies Records()
      ensures var rs := old(Records());
              var p := RunPass(Starting, old(Views(rs)), outcome);
              && (forall i :: 0 <= i < |rs| ==> rs[i].Snapshot() == p.views[i])
              && calls == p.calls && ok == p.failedAt.None?
      ensures ok ==> |calls| == |old(Records())| &&
                     forall i :: 0 <= i < |calls| ==> calls[i] == StartCalled(old(Records())[i].order)
    {
      ok, calls := RunInOrder(Starting, Records(), true, outcome);
    }

    /** `stop`: run every record's stop wrapper in descending order; resolves
        (`ok`) unless a stop procedure throws. */
    method Stop(outcome: nat -> Outcome) returns (ok: bool, ghost calls: seq<Call>)
      requires Valid()
      modifies Records()
      ensures var rs := Reversed(old(Records()));
              var p := RunPass(Stopping, old(Views(rs)), outcome);
              && (forall i :: 0 <= i < |rs| ==> rs[i].Snapshot() == p.views[i])
              && calls == p.calls && ok == p.failedAt.None?
              && (ok ==> calls == Invoked(Stopping, old(Views(rs))))
    {
      var ordered := Records();
      ReversedInOrder(ordered);
      ok, calls := RunInOrder(Stopping, Reversed(ordered), false, outcome);
    }
  }

  /** A pass over records listed in strictly monotone order: what `Walk`
      does, together with what a resolving pass ran. */
  method RunInOrder(ph: Phase, rs: seq<State>, up: bool, outcome: nat -> Outcome)
    returns (ok: bool, ghost calls: seq<Call>)
    requires InOrder(rs, up)
    modifies rs
    ensures var p := RunPass(ph, old(Views(rs)), outcome);
            && (forall i :: 0 <= i < |rs| ==> rs[i].Snapshot() == p.views[i])
            && calls == p.calls && ok == p.failedAt.None?
    ensures ok ==> calls == Invoked(ph, old(Views(rs)))
    ensures ok && ph == Starting ==> |calls| == |rs| && forall i :: 0 <= i < |rs| ==> calls[i] == StartCalled(rs[i].order)
  {
    ghost var vs := Views(rs);
    forall i, j | 0 <= i < j < |rs| ensures rs[i] != rs[j] {
      assert rs[i].order != rs[j].order;
    }
    if RunPass(ph, vs, outcome).failedAt.None? {
      PassSucceeds(ph, vs, outcome);
      InvokedStartsOneEach(vs);
    }
    var failedAt;
    failedAt, calls := Walk(ph, rs, vs, outcome);
    ok := failedAt.None?;
  }

  /** One iteration of the loop of `start` or `stop`, on record `r`. */
  method VisitOne(ph: Phase, r: State, outcome: nat -> Outcome) returns (failed: bool, ghost calls: seq<Call>)
    modifies r
    ensures var w := VisitRecord(ph, old(r.Snapshot()), outcome);
            r.Snapshot() == w.view && calls == w.calls && failed == w.failed
  {
    calls := [];
    failed := false;
    if ph == Starting {
      calls := [StartCalled(r.order)];
      var o := outcome(r.order);
      if o.Threw? {
        return true, calls;
      }
      r.value := Some(o.value);
    } else if r.hasStop {
      calls := [StopCalled(r.order, r.value)];
      failed := outcome(r.order).Threw?;
    }
  }

  /** The state of the loop of `start` and `stop` after `i` records: the
      records before `i` hold what the pass over `vs[..i]` left, the others
      still hold `vs`. */
  ghost predicate Walked(ph: Phase, rs: seq<State>, vs: seq<View>, i: nat, outcome: nat -> Outcome)
    reads rs
  {
    && i <= |rs| == |vs|
    && (forall j :: 0 <= j < i ==> rs[j].Snapshot() == RunPass(ph, vs[..i], outcome).views[j])
    && (forall j :: i <= j < |rs| ==> rs[j].Snapshot() == vs[j])
  }

  /** One iteration of the loop: visit record `i` and extend the pass over
      `vs[..i]` to the pass over `vs[..i + 1]`. */
  method Advance(ph: Phase, rs: seq<State>, ghost vs: seq<View>, i: nat, outcome: nat -> Outcome)
    returns (failed: bool, next: nat, ghost step: seq<Call>)
    requires forall a, b :: 0 <= a < b < |rs| ==> rs[a] != rs[b]
    requires i < |rs| && Walked(ph, rs, vs, i, outcome)
    requires RunPass(ph, vs[..i], outcome).failedAt.None?
    modifies rs[i]
    ensures next == i + 1 && Walked(ph, rs, vs, next, outcome)
    ensures var p := RunPass(ph, vs[..next], outcome);
            p.calls == RunPass(ph, vs[..i], outcome).calls + step
            && p.failedAt == if failed then Some(i) else None
  {
    ghost var q := RunPass(ph, vs[..i], outcome);
    PassExtend(ph, vs, i, outcome);
    failed, step := VisitOne(ph, rs[i], outcome);
    next := i + 1;
    ghost var p := RunPass(ph, vs[..next], outcome);
    assert p.views == q.views + [rs[i].Snapshot()];
    forall j | 0 <= j < i ensures rs[j].Snapshot() == p.views[j] {
      assert rs[j] != rs[i];
    }
  }

  /** The loop of `start` and `stop` over `rs`, in the given order; `vs` is
      what the records hold before the pass. */
  method Walk(ph: Phase, rs: seq<State>, ghost vs: seq<View>, outcome: nat -> Outcome)
    returns (failedAt: Option<nat>, ghost calls: seq<Call>)
    requires forall i, j :: 0 <= i < j < |rs| ==> rs[i] != rs[j]
    requires |vs| == |rs| && forall j :: 0 <= j < |rs| ==> rs[j].Snapshot() == vs[j]
    modifies rs
    ensures var p := RunPass(ph, vs, outcome);
            && (forall j :: 0 <= j < |rs| ==> rs[j].Snapshot() == p.views[j])
            && calls == p.calls && failedAt == p.failedAt
  {
    failedAt, calls := None, [];
    var i: nat := 0;
    while i < |rs| && failedAt.None?
      invariant Walked(ph, rs, vs, i, outcome)
      invariant failedAt == RunPass(ph, vs[..i], outcome).failedAt
      invariant calls == RunPass(ph, vs[..i], outcome).calls
    {
      var failed, next;
      ghost var step;
      failed, next, step := Advance(ph, rs, vs, i, outcome);
      calls := calls + step;
      if failed {
        failedAt := Some(i);
      }
      i := next;
    }
    PassFinished(ph, vs, i, outcome);
  }
}
