/** The registry of inbound listeners (listener/listener.go) and its transactional patch.
    What a listener does is outside the registry: it holds its address or not, and serves
    or not. Close and Listen may fail at any call: a failed Close changes nothing, a failed
    Listen leaves the listener not serving, with or without its address. */
module Listeners {

  /** A listener object: the name it is given under, its identity, its configuration. */
  datatype Listener = Listener(name: string, id: nat, config: nat, managed: bool)

  datatype Bits = Bits(holding: bool, serving: bool)

  type Table = map<string, Listener>

  type World = map<Listener, Bits>

  datatype Op = Close | Listen | Update

  /** A call of a listener's method, and whether it succeeded. */
  datatype Call = Call(op: Op, l: Listener, ok: bool)

  predicate AllOk(calls: seq<Call>) { forall i :: 0 <= i < |calls| ==> calls[i].ok }

  lemma Assoc(a: seq<Call>, b: seq<Call>, c: seq<Call>)
    ensures a + b + c == a + (b + c)
  {
  }

  lemma AllOkAppend(a: seq<Call>, c: Call)
    ensures AllOk(a + [c]) <==> AllOk(a) && c.ok
  {
    AllOkSplits(a, [c]);
    assert [c][0].ok == c.ok;
  }

  lemma AllOkSplits(a: seq<Call>, b: seq<Call>)
    ensures AllOk(a + b) <==> AllOk(a) && AllOk(b)
  {
    if AllOk(a + b) {
      forall i | 0 <= i < |a| ensures a[i].ok { assert (a + b)[i] == a[i]; }
      forall i | 0 <= i < |b| ensures b[i].ok { assert (a + b)[|a| + i] == b[i]; }
    }
  }

  // --------------------------------------------------------------------- the invariant

  predicate Registered(t: Table, l: Listener) { l.name in t && t[l.name] == l }

  predicate Holding(w: World, l: Listener) { l in w && w[l].holding }

  predicate IsServing(w: World, l: Listener) { l in w && w[l].serving }

  /** A table files listeners under their names. */
  ghost predicate Wired(t: Table, w: World) {
    forall n :: n in t ==> t[n].name == n && t[n] in w
  }

  /** A registered name not marked unusable is serving. */
  ghost predicate Serving(t: Table, marks: set<string>, w: World) {
    forall n :: n in t && n !in marks ==> IsServing(w, t[n])
  }

  /** No handle is lost: a listener that holds its address is registered, or is still in
      the hands of the running patch. */
  ghost predicate Handled(t: Table, w: World, inHand: seq<Listener>) {
    forall l :: Holding(w, l) ==> Registered(t, l) || l in inHand
  }

  ghost predicate Sound(t: Table, marks: set<string>, w: World) {
    Wired(t, w) && Serving(t, marks, w) && Handled(t, w, [])
  }

  /** Each of the listeners is closed once, in turn. */
  ghost predicate ClosesOf(ls: seq<Listener>, calls: seq<Call>) {
    |calls| == |ls| && forall i :: 0 <= i < |ls| ==> calls[i].op.Close? && calls[i].l == ls[i]
  }

  lemma ClosesStep(ls: seq<Listener>, k: nat, calls: seq<Call>, ok: bool)
    requires k < |ls| && ClosesOf(ls[..k], calls)
    ensures ClosesOf(ls[..k + 1], calls + [Call(Op.Close, ls[k], ok)])
    ensures AllOk(calls + [Call(Op.Close, ls[k], ok)]) <==> AllOk(calls) && ok
  {
    AllOkAppend(calls, Call(Op.Close, ls[k], ok));
  }

  /** The listeners are started in turn, up to the first that fails. */
  ghost predicate ListensTo(ls: seq<Listener>, calls: seq<Call>) {
    && |calls| <= |ls| && (|calls| < |ls| ==> !AllOk(calls))
    && (forall i :: 0 <= i < |calls| ==> calls[i].op.Listen? && calls[i].l == ls[i])
    && (forall i :: 0 <= i < |calls| - 1 ==> calls[i].ok)
  }

  ghost predicate Apart(ls: seq<Listener>) {
    forall i, j :: 0 <= i < j < |ls| ==> ls[i].name != ls[j].name
  }

  // -------------------------------------------------------------- what a patch intends

  predicate Reusable(t: Table, marks: set<string>, wanted: Table, n: string) {
    n in t && n in wanted && n !in marks && t[n].config == wanted[n].config
  }

  predicate Stops(t: Table, marks: set<string>, wanted: Table, dropOld: bool, n: string) {
    n in t && !Reusable(t, marks, wanted, n) && (n in wanted || dropOld)
  }

  predicate Starts(t: Table, marks: set<string>, wanted: Table, n: string) {
    n in wanted && !Reusable(t, marks, wanted, n)
  }

  /** Reused listeners stay, replacements come in, the others stay or are dropped. */
  function Intended(t: Table, marks: set<string>, wanted: Table, dropOld: bool): Table {
    map n | n in t.Keys + wanted.Keys && (n in wanted || !dropOld) ::
      if Starts(t, marks, wanted, n) then wanted[n] else t[n]
  }

  /** The closed listeners are some of those to stop, and hold nothing. */
  ghost predicate Shut(stopped: seq<Listener>, closed: seq<Listener>, w: World) {
    forall l :: l in closed ==> l in stopped && l in w && !Holding(w, l)
  }

  /** The first k of the listeners to stop have been dealt with. */
  ghost predicate Halfway(stopped: seq<Listener>, k: nat, t: Table, w0: World, w: World,
                          closed: seq<Listener>, calls: seq<Call>, ok: bool) {
    && Shut(stopped, closed, w) && SameOutside(w0, w, stopped)
    && (forall i :: 0 <= i < k && i < |stopped| && ok ==> stopped[i] in closed)
    && (forall i :: k <= i < |stopped| ==> Registered(t, stopped[i]))
    && k <= |stopped| && ClosesOf(stopped[..k], calls) && ok == AllOk(calls)
  }

  lemma HalfwayStep(stopped: seq<Listener>, k: nat, t: Table, t': Table, w0: World, w: World, w': World,
                    closed: seq<Listener>, calls: seq<Call>, ok: bool, done: bool)
    requires Apart(stopped) && k < |stopped| && Halfway(stopped, k, t, w0, w, closed, calls, ok)
    requires stopped[k] in w && w' == w[stopped[k] := if done then Bits(false, false) else w[stopped[k]]]
    requires t' == if done then t - {stopped[k].name} else t
    ensures Halfway(stopped, k + 1, t', w0, w', if done then closed + [stopped[k]] else closed,
                    calls + [Call(Op.Close, stopped[k], done)], ok && done)
  {
    forall i | k + 1 <= i < |stopped| ensures Registered(t', stopped[i]) { }
    ClosesStep(stopped, k, calls, done);
  }

  lemma HalfwayDone(stopped: seq<Listener>, t: Table, w0: World, w: World,
                    closed: seq<Listener>, calls: seq<Call>, ok: bool)
    requires Halfway(stopped, |stopped|, t, w0, w, closed, calls, ok)
    ensures ClosesOf(stopped, calls) && (ok ==> forall l :: l in stopped ==> l in closed)
  {
    assert stopped[..|stopped|] == stopped;
  }

  // ----------------------------------------------------------------------- the registry

  class Registry {
    var inbound: Table
    var unusable: set<string>
    var world: World
    /** Every call made of a listener, in order. */
    ghost var log: seq<Call>

    ghost predicate Valid()
      reads this
    {
      Sound(inbound, unusable, world)
    }

    constructor ()
      ensures Valid() && inbound == map[] && unusable == {} && world == map[] && log == []
    {
      inbound, unusable, world, log := map[], {}, map[], [];
    }

    method Close(l: Listener) returns (ok: bool)
      requires l in world
      modifies this`world, this`log
      ensures world == old(world)[l := if ok then Bits(false, false) else old(world)[l]]
      ensures log == old(log) + [Call(Op.Close, l, ok)]
    {
      ok := *;
      log := log + [Call(Op.Close, l, ok)];
      if ok { world := world[l := Bits(false, false)]; }
    }

    method Listen(l: Listener) returns (ok: bool)
      requires l in world
      modifies this`world, this`log
      ensures l in world && world == old(world)[l := world[l]]
      ensures if ok then world[l] == Bits(true, true) else !world[l].serving
      ensures log == old(log) + [Call(Op.Listen, l, ok)]
    {
      ok := *;
      log := log + [Call(Op.Listen, l, ok)];
      var held: bool := *;
      world := world[l := Bits(ok || held, ok)];
    }

    /** Clears the users of a managed listener. */
    method UpdateUsers(l: Listener) returns (ok: bool)
      modifies this`log
      ensures log == old(log) + [Call(Update, l, ok)]
    {
      ok := *;
      log := log + [Call(Update, l, ok)];
    }

    // ---------------------------------------------------------- closing what must stop

    /** Each listener is closed once, in turn. Those that close leave the table; a failed Close
        leaves its entry as it was. */
    method CloseStopped(stopped: seq<Listener>) returns (closed: seq<Listener>, ok: bool, ghost calls: seq<Call>)
      requires Valid() && Apart(stopped) && forall l :: l in stopped ==> Registered(inbound, l)
      modifies this
      ensures Valid() && world.Keys == old(world).Keys
      ensures Closings(old(inbound), old(unusable), inbound, unusable, closed)
      ensures Shut(stopped, closed, world) && (ok ==> forall l :: l in stopped ==> l in closed)
      ensures SameOutside(old(world), world, stopped)
      ensures log == old(log) + calls && ClosesOf(stopped, calls) && ok == AllOk(calls)
    {
      closed, ok, calls := [], true, [];
      for k := 0 to |stopped|
        invariant Valid() && world.Keys == old(world).Keys && log == old(log) + calls
        invariant Closings(old(inbound), old(unusable), inbound, unusable, closed)
        invariant Halfway(stopped, k, inbound, old(world), world, closed, calls, ok)
      {
        var done := StopNext(stopped, k, closed, calls, ok, old(inbound), old(unusable), old(world));
        Assoc(old(log), calls, [Call(Op.Close, stopped[k], done)]);
        calls := calls + [Call(Op.Close, stopped[k], done)];
        closed, ok := if done then closed + [stopped[k]] else closed, ok && done;
      }
      HalfwayDone(stopped, inbound, old(world), world, closed, calls, ok);
    }

    method StopNext(stopped: seq<Listener>, k: nat, ghost closed: seq<Listener>, ghost calls: seq<Call>, ghost ok: bool,
                    ghost t0: Table, ghost m0: set<string>, ghost w0: World) returns (done: bool)
      requires Valid() && Apart(stopped) && k < |stopped| && Closings(t0, m0, inbound, unusable, closed)
      requires Halfway(stopped, k, inbound, w0, world, closed, calls, ok)
      modifies this
      ensures Valid() && world.Keys == old(world).Keys && log == old(log) + [Call(Op.Close, stopped[k], done)]
      ensures Closings(t0, m0, inbound, unusable, if done then closed + [stopped[k]] else closed)
      ensures Halfway(stopped, k + 1, inbound, w0, world, if done then closed + [stopped[k]] else closed,
                      calls + [Call(Op.Close, stopped[k], done)], ok && done)
    {
      ClosingsStep(t0, m0, inbound, unusable, closed, stopped[k]);
      done := StopOne(stopped[k]);
      HalfwayStep(stopped, k, old(inbound), inbound, w0, old(world), world, closed, calls, ok, done);
    }

    method StopOne(l: Listener) returns (done: bool)
      requires Valid() && Registered(inbound, l)
      modifies this
      ensures Valid() && world == old(world)[l := if done then Bits(false, false) else old(world)[l]]
      ensures inbound == if done then old(inbound) - {l.name} else old(inbound)
      ensures unusable == if done then old(unusable) - {l.name} else old(unusable)
      ensures log == old(log) + [Call(Op.Close, l, done)]
    {
      CloseKeepsSound(inbound, unusable, world, l);
      done := Close(l);
      if !done { assert world == old(world); return; }
      inbound := inbound - {l.name};
      unusable := unusable - {l.name};
    }

    // ------------------------------------------------------------------- starting anew

    /** Starts the replacements in turn, up to the first that fails; the failed one is
        among the started. */
    method StartAll(replacements: seq<Listener>) returns (started: seq<Listener>, ok: bool, ghost calls: seq<Call>)
      requires Valid() && forall l :: l in replacements ==> l in world && l.name !in inbound
      modifies this`world, this`log
      ensures Wired(inbound, world) && Serving(inbound, unusable, world) && Handled(inbound, world, started)
      ensures started <= replacements
      ensures ok ==> started == replacements && forall l :: l in started ==> IsServing(world, l)
      ensures world.Keys == old(world).Keys && SameOutside(old(world), world, replacements)
      ensures log == old(log) + calls && ListensTo(replacements, calls) && ok == AllOk(calls)
    {
      started, calls := [], [];
      for k := 0 to |replacements|
        invariant started == replacements[..k] && world.Keys == old(world).Keys
        invariant forall l :: l in started ==> IsServing(world, l)
        invariant Handled(inbound, world, started) && SameOutside(old(world), world, replacements)
        invariant log == old(log) + calls && AllOk(calls) && |calls| == k
        invariant forall i :: 0 <= i < k ==> calls[i].op.Listen? && calls[i].l == replacements[i]
      {
        var l := replacements[k];
        started := started + [l];
        var done := Listen(l);
        Assoc(old(log), calls, [Call(Op.Listen, l, done)]);
        calls := calls + [Call(Op.Listen, l, done)];
        if !done {
          KeepServing(inbound, unusable, old(world), world, replacements);
          assert !calls[k].ok;
          return started, false, calls;
        }
      }
      KeepServing(inbound, unusable, old(world), world, replacements);
      ok := true;
    }

    method Register(started: seq<Listener>)
      requires Wired(inbound, world) && Serving(inbound, unusable, world) && Handled(inbound, world, started)
      requires Apart(started) && forall l :: l in started ==> IsServing(world, l) && l.name !in inbound
      modifies this`inbound, this`unusable
      ensures Valid() && Added(old(inbound), inbound, started)
      ensures forall l :: l in started ==> Registered(inbound, l) && l.name !in unusable
      ensures unusable <= old(unusable) && forall n :: n in old(inbound) ==> (n in unusable <==> n in old(unusable))
    {
      for k := 0 to |started|
        invariant Registering(old(inbound), old(unusable), started, k, inbound, unusable, world)
      {
        var l := started[k];
        RegisteringStep(old(inbound), old(unusable), started, k, inbound, unusable, world);
        inbound := inbound[l.name := l];
        unusable := unusable - {l.name};
      }
      assert started[|started|..] == [];
    }

    // ------------------------------------------------------------------------ rollback

    /** One started replacement is closed; if that fails it is registered and marked, to
        keep the only handle that can release its address. */
    method UndoOne(l: Listener, ghost rest: seq<Listener>) returns (done: bool)
      requires Wired(inbound, world) && Serving(inbound, unusable, world) && Handled(inbound, world, rest + [l])
      requires l in world && l.name !in inbound
      modifies this
      ensures Wired(inbound, world) && Serving(inbound, unusable, world) && Handled(inbound, world, rest)
      ensures world.Keys == old(world).Keys && SameOutside(old(world), world, [l])
      ensures inbound == if done then old(inbound) else old(inbound)[l.name := l]
      ensures unusable == if done then old(unusable) - {l.name} else old(unusable) + {l.name}
      ensures log == old(log) + [Call(Op.Close, l, done)]
    {
      assert forall x :: x in rest + [l] ==> x in rest || x == l;
      done := Close(l);
      if !done {
        inbound := inbound[l.name := l];
        unusable := unusable + {l.name};
      } else {
        assert inbound - {l.name} == inbound;
        inbound := inbound - {l.name};
        unusable := unusable - {l.name};
      }
    }

    /** Those whose Close fails, and no others, end up registered, and marked. */
    method UndoStarted(started: seq<Listener>) returns (clean: bool, ghost calls: seq<Call>)
      requires Wired(inbound, world) && Serving(inbound, unusable, world) && Handled(inbound, world, started)
      requires Apart(started) && forall l :: l in started ==> l in world && l.name !in inbound
      modifies this
      ensures Valid() && world.Keys == old(world).Keys && SameOutside(old(world), world, started)
      ensures Added(old(inbound), inbound, started) && (clean ==> inbound == old(inbound))
      ensures Leftovers(old(inbound), inbound, unusable, calls)
      ensures MarksKept(old(inbound), old(unusable), inbound, unusable)
      ensures log == old(log) + calls && clean == AllOk(calls)
    {
      clean, calls := true, [];
      var i := |started|;
      while i > 0
        invariant 0 <= i <= |started| && log == old(log) + calls
        invariant Wired(inbound, world) && Serving(inbound, unusable, world) && Handled(inbound, world, started[..i])
        invariant Undoing(old(inbound), old(unusable), old(world), started, i, inbound, unusable, world, calls, clean)
      {
        i := i - 1;
        ghost var t, m, w := inbound, unusable, world;
        assert started[..i + 1] == started[..i] + [started[i]];
        var done := UndoOne(started[i], started[..i]);
        UndoingStep(old(inbound), old(unusable), old(world), started, i, t, m, w, calls, clean,
                    inbound, unusable, world, done);
        Assoc(old(log), calls, [Call(Op.Close, started[i], done)]);
        calls, clean := calls + [Call(Op.Close, started[i], done)], clean && done;
      }
      assert started[..0] == [];
    }

    /** One closed listener is brought back, unless its name is taken by a replacement
        that could not be closed; if it neither listens nor closes it is kept and marked. */
    method RestoreOne(l: Listener) returns (done: bool, ghost calls: seq<Call>)
      requires Valid() && l in world && !Holding(world, l)
      modifies this
      ensures Valid() && world.Keys == old(world).Keys && SameOutside(old(world), world, [l])
      ensures inbound == old(inbound) || (l.name !in old(inbound) && inbound == old(inbound)[l.name := l])
      ensures forall n :: n != l.name || n in old(inbound) ==> (n in unusable <==> n in old(unusable))
      ensures l.name in unusable ==> l.name in old(unusable) || l.name in inbound
      ensures done ==> Registered(inbound, l) && l.name !in unusable
      ensures log == old(log) + calls && (done <==> l.name !in old(inbound) && AllOk(calls))
      ensures done || l.name in old(inbound) || Call(Op.Listen, l, false) in calls
    {
      if l.name in inbound { return false, []; }
      done := Listen(l);
      calls := [Call(Op.Listen, l, done)];
      if !done {
        var closed := Close(l);
        Assoc(old(log), calls, [Call(Op.Close, l, closed)]);
        calls := calls + [Call(Op.Close, l, closed)];
        assert !calls[0].ok;
        if !closed {
          inbound := inbound[l.name := l];
          unusable := unusable + {l.name};
        }
        return;
      }
      inbound := inbound[l.name := l];
      unusable := unusable - {l.name};
    }

    /** Each of the closed listeners is tried, whatever became of those before it. */
    method RestoreClosed(closed: seq<Listener>) returns (clean: bool, ghost calls: seq<Call>)
      requires Valid() && Apart(closed) && forall l :: l in closed ==> l in world && !Holding(world, l)
      modifies this
      ensures Valid() && world.Keys == old(world).Keys && SameOutside(old(world), world, closed)
      ensures Added(old(inbound), inbound, closed) && MarksKept(old(inbound), old(unusable), inbound, unusable)
      ensures clean ==> forall l :: l in closed ==> Registered(inbound, l) && l.name !in unusable
      ensures forall l :: l in closed ==> Tried(old(inbound), inbound, unusable, l, calls)
      ensures log == old(log) + calls && (clean <==> Free(old(inbound), closed) && AllOk(calls))
    {
      clean, calls := true, [];
      ghost var made;
      for k := 0 to |closed|
        invariant Valid() && log == old(log) + calls
        invariant Returning(old(inbound), old(unusable), old(world), closed, k, inbound, unusable, world, calls, clean)
      {
        var done;
        done, made := RestoreNext(closed, k, calls, clean, old(inbound), old(unusable), old(world));
        Assoc(old(log), calls, made);
        calls, clean := calls + made, clean && done;
      }
      ReturningDone(old(inbound), old(unusable), old(world), closed, inbound, unusable, world, calls, clean);
    }

    method RestoreNext(closed: seq<Listener>, k: nat, ghost calls: seq<Call>, ghost clean: bool,
                       ghost t0: Table, ghost m0: set<string>, ghost w0: World)
      returns (done: bool, ghost made: seq<Call>)
      requires Valid() && Apart(closed) && k < |closed|
      requires Returning(t0, m0, w0, closed, k, inbound, unusable, world, calls, clean)
      modifies this
      ensures Valid() && log == old(log) + made
      ensures Returning(t0, m0, w0, closed, k + 1, inbound, unusable, world, calls + made, clean && done)
    {
      done, made := RestoreOne(closed[k]);
      ReturningStep(t0, m0, w0, closed, k, old(inbound), old(unusable), old(world), calls, clean,
                    inbound, unusable, world, made, done);
    }

    // -------------------------------------------------------------------- the whole patch

    method ToStop(wanted: Table, dropOld: bool) returns (ls: seq<Listener>)
      requires Valid()
      ensures IsStopList(inbound, unusable, wanted, dropOld, ls)
    {
      ls := [];
      var todo := inbound.Keys;
      while todo != {}
        invariant todo <= inbound.Keys && Apart(ls)
        invariant forall l :: l in ls ==>
                  Registered(inbound, l) && l.name !in todo && Stops(inbound, unusable, wanted, dropOld, l.name)
        invariant forall n :: n !in todo && Stops(inbound, unusable, wanted, dropOld, n) ==> inbound[n] in ls
      {
        var n :| n in todo;
        todo := todo - {n};
        if n in wanted && n !in unusable && inbound[n].config == wanted[n].config { continue; }
        if n !in wanted && !dropOld { continue; }
        ls := ls + [inbound[n]];
      }
    }

    method ToStart(wanted: Table) returns (ls: seq<Listener>)
      requires forall n :: n in wanted ==> wanted[n].name == n
      ensures IsStartList(inbound, unusable, wanted, ls)
    {
      ls := [];
      var todo := wanted.Keys;
      while todo != {}
        invariant todo <= wanted.Keys && Apart(ls)
        invariant forall l :: l in ls ==>
                  Registered(wanted, l) && l.name !in todo && Starts(inbound, unusable, wanted, l.name)
        invariant forall n :: n !in todo && Starts(inbound, unusable, wanted, n) ==> wanted[n] in ls
      {
        var n :| n in todo;
        todo := todo - {n};
        if n in inbound && n !in unusable && inbound[n].config == wanted[n].config { continue; }
        ls := ls + [wanted[n]];
      }
    }

    /** Closes what was started and brings back what was closed. */
    method Rollback(started: seq<Listener>, closed: seq<Listener>, ghost t0: Table, ghost m0: set<string>)
      returns (clean: bool, ghost calls: seq<Call>)
      requires Wired(inbound, world) && Serving(inbound, unusable, world) && Handled(inbound, world, started)
      requires Closings(t0, m0, inbound, unusable, closed) && ByName(t0) && Apart(started)
      requires forall l :: l in started ==> l in world && l.name !in inbound && l !in closed
      requires forall l :: l in closed ==> l in world && !Holding(world, l)
      modifies this
      ensures Valid() && world.Keys == old(world).Keys && SameOutside(old(world), world, started + closed)
      ensures clean ==> inbound == t0 && unusable <= m0
      ensures forall n :: n in old(inbound) ==>
                n in inbound && inbound[n] == old(inbound)[n] && (n in unusable <==> n in old(unusable))
      ensures forall n :: n in inbound && n !in old(inbound) ==>
                inbound[n] in closed || (inbound[n] in started && n in unusable)
      ensures forall l :: l in closed ==> Accounted(l, started, inbound, unusable, calls)
      ensures log == old(log) + calls && clean == AllOk(calls)
    {
      ghost var undoing, restoring;
      var undone, restored;
      undone, undoing := UndoStarted(started);
      ghost var t1 := inbound;
      restored, restoring := RestoreClosed(closed);
      AllAccounted(old(inbound), t1, inbound, unusable, started, closed, undoing, restoring);
      clean, calls := undone && restored, undoing + restoring;
      Assoc(old(log), undoing, restoring);
      AllOkSplits(undoing, restoring);
      if clean {
        RolledBack(t0, m0, old(inbound), old(unusable), closed, inbound);
        forall n | n in unusable ensures n in m0 { }
      }
    }

    /** The second half, once everything to stop is closed: start, and register or undo. */
    method Replace(wanted: Table, dropOld: bool, stopped: seq<Listener>, replacements: seq<Listener>,
                   closed: seq<Listener>,
                   ghost t0: Table, ghost m0: set<string>)
      returns (r: Outcome, ghost forward: seq<Call>, ghost back: seq<Call>)
      requires Valid() && Closings(t0, m0, inbound, unusable, closed) && ByName(t0) && ByName(wanted)
      requires IsStopList(t0, m0, wanted, dropOld, stopped) && IsStartList(t0, m0, wanted, replacements)
      requires Shut(stopped, closed, world) && forall l :: l in stopped ==> l in closed
      requires Startable(replacements, closed, inbound, world)
      modifies this
      ensures Valid() && world.Keys == old(world).Keys && SameOutside(old(world), world, replacements + closed)
      ensures Concluded(t0, m0, wanted, dropOld, r, inbound, unusable)
      ensures log == old(log) + (forward + back) && ListensTo(replacements, forward) && Reports(r, forward, back)
      ensures r.Failed? ==> AllExplained(t0, m0, wanted, inbound, unusable, back)
    {
      ghost var t1, m1 := inbound, unusable;
      var started, ok;
      started, ok, forward := StartAll(replacements);
      if !ok {
        var clean;
        clean, back := Rollback(started, closed, t0, m0);
        Assoc(old(log), forward, back);
        AfterRollback(t0, m0, wanted, dropOld, stopped, replacements, t1, m1, closed, started, inbound, unusable);
        RollbackExplains(t0, m0, wanted, replacements, t1, m1, closed, started, inbound, unusable, back);
        return Failed(clean), forward, back;
      }
      Register(started);
      PatchedAsIntended(t0, m0, wanted, dropOld, t1, m1, stopped, closed, inbound, started);
      forall n | n in t0 && !Stops(t0, m0, wanted, dropOld, n)
        ensures Stayed(t0, inbound, n) && (n in unusable <==> n in m0)
      {
        KeptIffNotStopped(t0, m0, wanted, dropOld, t1, m1, stopped, closed, n);
      }
      r, back := Patched, [];
      assert forward + back == forward;
    }

    /** `PatchInboundListeners`. The new listeners are fresh objects under their names.
        Success installs exactly the intended table, and every new name serves. Failure
        keeps every listener that was not to stop, registers beside the old ones only
        replacements that could not be closed, marked unusable, and restores the table if
        no call failed inside the rollback; each old name is as before but for those whose own
        Listen failed there, or whose replacement would not close. It succeeds exactly if no
        call failed. In every case no handle is lost and every registered name not marked is
        serving (Valid). */
    method Patch(wanted: Table, dropOld: bool)
      returns (r: Outcome, ghost forward: seq<Call>, ghost back: seq<Call>)
      requires Valid() && ByName(wanted) && forall n :: n in wanted ==> wanted[n] !in world
      modifies this
      ensures Valid() && world.Keys == old(world).Keys + wanted.Values
      ensures r.Patched? ==> inbound == Intended(old(inbound), old(unusable), wanted, dropOld)
      ensures r.Patched? ==> forall n :: n in wanted ==> n in inbound && n !in unusable && IsServing(world, inbound[n])
      ensures r.Failed? && r.clean ==> inbound == old(inbound) && unusable <= old(unusable)
      ensures r.Failed? ==> forall n :: n in inbound ==>
                Stayed(old(inbound), inbound, n) || Stuck(old(inbound), old(unusable), wanted, inbound, unusable, n)
      ensures forall n :: n in old(inbound) && !Stops(old(inbound), old(unusable), wanted, dropOld, n) ==>
                && Stayed(old(inbound), inbound, n) && (n in unusable <==> n in old(unusable))
                && world[inbound[n]] == old(world)[inbound[n]]
      ensures r.Failed? ==> forall n :: n in old(inbound) ==>
                Explained(old(inbound), old(unusable), wanted, inbound, unusable, back, n)
      // What success comes to, name by name.
      ensures r.Patched? ==> forall n :: n in wanted ==> inbound[n].config == wanted[n].config
      ensures r.Patched? ==> forall n :: n in wanted ==>
                inbound[n] == if n in old(inbound) && n !in old(unusable) && old(inbound)[n].config == wanted[n].config
                              then old(inbound)[n] else wanted[n]
      ensures r.Patched? ==> forall n :: n !in wanted ==> (n in inbound <==> n in old(inbound) && !dropOld)
      ensures r.Patched? ==> forall n :: n !in wanted && n in inbound ==> inbound[n] == old(inbound)[n]
      // A listener that need not change is not called, is not touched and stays.
      ensures forall n, c :: Unchanged(old(inbound), old(unusable), wanted, dropOld, n) && c in forward ==>
                c.l != old(inbound)[n]
      ensures forall n :: Unchanged(old(inbound), old(unusable), wanted, dropOld, n) ==>
                && Stayed(old(inbound), inbound, n) && (n in unusable <==> n in old(unusable))
                && world[inbound[n]] == old(world)[inbound[n]]
      ensures log == old(log) + forward + back && Reports(r, forward, back)
      ensures Forward(old(inbound), old(unusable), wanted, dropOld, forward)
    {
      var stopped := ToStop(wanted, dropOld);
      var replacements := ToStart(wanted);
      Introduce(inbound, unusable, world, wanted);
      ghost var w := world;
      world := world + map l | l in wanted.Values :: Bits(false, false);
      ghost var w0 := world;
      ghost var closes, listens;
      r, closes, listens, back := Exchange(wanted, dropOld, stopped, replacements, w);
      forward := closes + listens;
      PatchCalls(old(inbound), old(unusable), wanted, dropOld, stopped, replacements, r, old(log), closes, listens,
                 back);
      UntouchedBits(old(inbound), old(unusable), wanted, dropOld, stopped, replacements, w, w0, world);
      NotCalled(old(inbound), old(unusable), wanted, dropOld, stopped, replacements, closes, listens, w);
      UnchangedNotStopped(old(inbound), old(unusable), wanted, dropOld);
      IntendedNames(old(inbound), old(unusable), wanted, dropOld);
    }

    /** The patch itself, with its two lists drawn up; w is the world of the old listeners. */
    method Exchange(wanted: Table, dropOld: bool, stopped: seq<Listener>, replacements: seq<Listener>, ghost w: World)
      returns (r: Outcome, ghost closes: seq<Call>, ghost listens: seq<Call>, ghost back: seq<Call>)
      requires Valid() && ByName(wanted) && Wired(inbound, w) && (forall l :: l in w ==> l in world)
      requires IsStopList(inbound, unusable, wanted, dropOld, stopped)
      requires IsStartList(inbound, unusable, wanted, replacements)
      requires forall n :: n in wanted ==> wanted[n] !in w && wanted[n] in world && !Holding(world, wanted[n])
      modifies this
      ensures Valid() && world.Keys == old(world).Keys && SameOutside(old(world), world, stopped + replacements)
      ensures Concluded(old(inbound), old(unusable), wanted, dropOld, r, inbound, unusable)
      ensures log == old(log) + closes + (listens + back) && ClosesOf(stopped, closes)
      ensures InPhases(replacements, r, closes, listens, back)
      ensures r.Failed? ==> AllExplained(old(inbound), old(unusable), wanted, inbound, unusable, back)
    {
      ghost var t0, m0 := inbound, unusable;
      var closed, ok;
      closed, ok, closes := CloseStopped(stopped);
      ghost var w1 := world;
      if !ok {
        listens := [];
        r, back := GiveUp(wanted, dropOld, stopped, replacements, closed, t0, m0);
        assert listens + back == back;
      } else {
        ReadyToStart(t0, m0, wanted, dropOld, stopped, closed, replacements, inbound, unusable, w, world);
        r, listens, back := Replace(wanted, dropOld, stopped, replacements, closed, t0, m0);
      }
      SameTwice(old(world), w1, world, stopped, closed, replacements);
    }

    /** A listener could not be closed: the others are brought back. */
    method GiveUp(wanted: Table, dropOld: bool, stopped: seq<Listener>, replacements: seq<Listener>,
                  closed: seq<Listener>, ghost t0: Table, ghost m0: set<string>)
      returns (r: Outcome, ghost back: seq<Call>)
      requires Valid() && Closings(t0, m0, inbound, unusable, closed) && ByName(t0)
      requires IsStopList(t0, m0, wanted, dropOld, stopped) && IsStartList(t0, m0, wanted, replacements)
      requires Shut(stopped, closed, world)
      modifies this
      ensures Valid() && world.Keys == old(world).Keys && SameOutside(old(world), world, closed)
      ensures Concluded(t0, m0, wanted, dropOld, r, inbound, unusable)
      ensures log == old(log) + back && r.Failed? && (r.clean <==> AllOk(back))
      ensures AllExplained(t0, m0, wanted, inbound, unusable, back)
    {
      ghost var t1, m1 := inbound, unusable;
      var clean;
      clean, back := Rollback([], closed, t0, m0);
      AfterRollback(t0, m0, wanted, dropOld, stopped, replacements, t1, m1, closed, [], inbound, unusable);
      RollbackExplains(t0, m0, wanted, replacements, t1, m1, closed, [], inbound, unusable, back);
      r := Failed(clean);
    }

    /** `FailClosedManagedInboundListener`: a managed listener whose users cannot be cleared
        is closed and dropped; if it cannot be closed either it stays registered. The mark
        of a dropped name is left behind, which is harmless: see Valid. */
    method FailClosed(name: string) returns (ok: bool, ghost calls: seq<Call>)
      requires Valid()
      modifies this
      ensures Valid() && unusable == old(unusable) && world.Keys == old(world).Keys
      ensures log == old(log) + calls && FailsClosed(old(inbound), name, calls)
      ensures ok == AllOk(calls)
      ensures inbound == if |calls| == 2 && calls[1].ok then old(inbound) - {name} else old(inbound)
      ensures ok ==> world == old(world)
      ensures forall l :: l in world && !(name in old(inbound) && l == old(inbound)[name]) ==> world[l] == old(world)[l]
    {
      if name !in inbound || !inbound[name].managed { return true, []; }
      var l := inbound[name];
      ok := UpdateUsers(l);
      calls := [Call(Update, l, ok)];
      if ok { return; }
      var done := Close(l);
      assert !calls[0].ok;
      calls := calls + [Call(Op.Close, l, done)];
      if done {
        inbound := inbound - {name};
      } else {
        assert world == old(world);
      }
    }

    /** Over every sequence of patches and fail-closed steps, each given new listeners, the
        invariant holds: no lost handle, and every unmarked name is serving. */
    method RunAll(steps: seq<Step>)
      requires Valid()
      requires forall i :: 0 <= i < |steps| && steps[i].PatchStep? ==>
                ByName(steps[i].wanted) && Unseen(steps[i].wanted, world)
      requires forall i, j, n ::
                 0 <= i < j < |steps| && steps[i].PatchStep? && steps[j].PatchStep? && n in steps[j].wanted ==>
                 steps[j].wanted[n] !in steps[i].wanted.Values
      modifies this
      ensures forall l :: Holding(world, l) ==> Registered(inbound, l)
      ensures forall n :: n in inbound && n !in unusable ==> IsServing(world, inbound[n])
    {
      for k := 0 to |steps|
        invariant Valid()
        invariant forall i :: k <= i < |steps| && steps[i].PatchStep? ==> Unseen(steps[i].wanted, world)
      {
        match steps[k] {
          case PatchStep(wanted, dropOld) => var r, _, _ := Patch(wanted, dropOld);
          case FailClosedStep(name) => var ok, _ := FailClosed(name);
        }
      }
    }
  }

  datatype Step = PatchStep(wanted: Table, dropOld: bool) | FailClosedStep(name: string)

  ghost predicate Unseen(wanted: Table, w: World) { forall n :: n in wanted ==> wanted[n] !in w }

  predicate Managed(t: Table, n: string) { n in t && t[n].managed }

  /** The calls of a fail-closed step: none unless the name is a managed listener, else the
      update of its users and, if that fails, its Close. */
  predicate FailsClosed(t: Table, name: string, calls: seq<Call>) {
    if !Managed(t, name) then calls == []
    else
      && 1 <= |calls| <= 2 && calls[0].op.Update? && calls[0].l == t[name]
      && (|calls| == 2 <==> !calls[0].ok)
      && (|calls| == 2 ==> calls[1].op.Close? && calls[1].l == t[name])
  }

  datatype Outcome = Patched | Failed(clean: bool)

  /** The outcome against the calls before and in the rollback: success is exactly that none
      failed, and then there is no rollback; a rollback is clean exactly if none failed in it. */
  predicate Reports(r: Outcome, forward: seq<Call>, back: seq<Call>) {
    && (r.Patched? <==> AllOk(forward))
    && (r.Patched? ==> back == [])
    && (r.Failed? ==> (r.clean <==> AllOk(back)))
  }

  /** What a patch leaves behind, as `Registry.Patch` spells it out. */
  ghost predicate Concluded(t0: Table, m0: set<string>, wanted: Table, dropOld: bool, r: Outcome,
                            t: Table, m: set<string>) {
    && (r.Patched? ==> t == Intended(t0, m0, wanted, dropOld) && forall n :: n in wanted ==> n in t && n !in m)
    && (r.Failed? && r.clean ==> t == t0 && m <= m0)
    && (r.Failed? ==> forall n :: n in t ==> Stayed(t0, t, n) || Stuck(t0, m0, wanted, t, m, n))
    && (forall n :: n in t0 && !Stops(t0, m0, wanted, dropOld, n) ==> Stayed(t0, t, n) && (n in m <==> n in m0))
  }

  /** No listener is started unless all that must stop have been closed. */
  ghost predicate InPhases(replacements: seq<Listener>, r: Outcome, closes: seq<Call>, listens: seq<Call>,
                           back: seq<Call>) {
    if AllOk(closes) then ListensTo(replacements, listens) && Reports(r, listens, back)
    else listens == [] && r.Failed? && (r.clean <==> AllOk(back))
  }

  lemma PatchCalls(t: Table, m: set<string>, wanted: Table, dropOld: bool, stopped: seq<Listener>,
                   replacements: seq<Listener>, r: Outcome,
                   log: seq<Call>, closes: seq<Call>, listens: seq<Call>, back: seq<Call>)
    requires IsStopList(t, m, wanted, dropOld, stopped) && IsStartList(t, m, wanted, replacements)
    requires ClosesOf(stopped, closes) && InPhases(replacements, r, closes, listens, back)
    ensures Forward(t, m, wanted, dropOld, closes + listens) && Reports(r, closes + listens, back)
    ensures log + closes + (listens + back) == log + (closes + listens) + back
  {
    var calls := closes + listens;
    assert calls[..|closes|] == closes && calls[|closes|..] == listens;
    AllOkSplits(closes, listens);
    assert Plays(stopped, replacements, calls, |closes|);
    Assoc(log, closes, listens + back);
    Assoc(closes, listens, back);
    Assoc(log, calls, back);
  }

  /** A patch has nothing to do for the name: its listener serves in the configuration wanted, or
      is not spoken of and not to be dropped. */
  predicate Unchanged(t: Table, marks: set<string>, wanted: Table, dropOld: bool, n: string) {
    && n in t
    && if n in wanted then n !in marks && t[n].config == wanted[n].config else !dropOld
  }

  lemma UnchangedNotStopped(t: Table, marks: set<string>, wanted: Table, dropOld: bool)
    ensures forall n :: Unchanged(t, marks, wanted, dropOld, n) ==> !Stops(t, marks, wanted, dropOld, n)
  {
  }

  lemma IntendedNames(t: Table, marks: set<string>, wanted: Table, dropOld: bool)
    ensures var t' := Intended(t, marks, wanted, dropOld);
      && (forall n :: n in wanted ==> n in t' && t'[n].config == wanted[n].config)
      && (forall n :: n in wanted ==>
            t'[n] == if n in t && n !in marks && t[n].config == wanted[n].config then t[n] else wanted[n])
      && (forall n :: n !in wanted ==> (n in t' <==> n in t && !dropOld))
      && (forall n :: n !in wanted && n in t' ==> t'[n] == t[n])
  {
  }

  lemma NotCalled(t: Table, m: set<string>, wanted: Table, dropOld: bool, stopped: seq<Listener>,
                  replacements: seq<Listener>, closes: seq<Call>, listens: seq<Call>, w: World)
    requires IsStopList(t, m, wanted, dropOld, stopped) && IsStartList(t, m, wanted, replacements)
    requires ClosesOf(stopped, closes) && (listens == [] || ListensTo(replacements, listens))
    requires Wired(t, w) && forall n :: n in wanted ==> wanted[n] !in w
    ensures forall n, c :: Unchanged(t, m, wanted, dropOld, n) && c in closes + listens ==> c.l != t[n]
  {
    forall n, c | Unchanged(t, m, wanted, dropOld, n) && c in closes + listens ensures c.l != t[n] {
      assert c.l in stopped || c.l in replacements;
      if c.l in stopped { assert Stops(t, m, wanted, dropOld, c.l.name); } else { assert Registered(wanted, c.l); }
    }
  }

  /** The calls of a patch before any rollback: everything to stop is closed, each once; if all
      of that succeeds, everything to start is started, each once, up to the first failure. */
  ghost predicate Forward(t: Table, m: set<string>, wanted: Table, dropOld: bool, calls: seq<Call>) {
    exists stopped, replacements, n ::
      && IsStopList(t, m, wanted, dropOld, stopped) && IsStartList(t, m, wanted, replacements)
      && Plays(stopped, replacements, calls, n)
  }

  ghost predicate Plays(stopped: seq<Listener>, replacements: seq<Listener>, calls: seq<Call>, n: int) {
    && 0 <= n <= |calls| && ClosesOf(stopped, calls[..n])
    && if AllOk(calls[..n]) then ListensTo(replacements, calls[n..]) else n == |calls|
  }

  predicate Stayed(t0: Table, t: Table, n: string) { n in t0 && n in t && t[n] == t0[n] }

  /** A replacement that started and could not be closed again. */
  predicate Stuck(t0: Table, m0: set<string>, wanted: Table, t: Table, m: set<string>, n: string) {
    Starts(t0, m0, wanted, n) && n in t && t[n] == wanted[n] && n in m
  }

  /** The closed listener is back and unmarked, unless its Listen failed, or the Close of a started
      listener of its name did. */
  ghost predicate Accounted(l: Listener, started: seq<Listener>, t: Table, m: set<string>, calls: seq<Call>) {
    || (Registered(t, l) && l.name !in m)
    || Call(Op.Listen, l, false) in calls
    || exists s :: s in started && s.name == l.name && Call(Op.Close, s, false) in calls
  }

  lemma AllAccounted(t0: Table, t1: Table, t: Table, m: set<string>, started: seq<Listener>, closed: seq<Listener>,
                     undoing: seq<Call>, restoring: seq<Call>)
    requires Added(t0, t1, started) && ByName(t1)
    requires forall n :: n in t1 && n !in t0 ==> Call(Op.Close, t1[n], false) in undoing
    requires forall l :: l in closed ==> l.name !in t0 && Tried(t1, t, m, l, restoring)
    ensures forall l :: l in closed ==> Accounted(l, started, t, m, undoing + restoring)
  {
    forall l | l in closed ensures Accounted(l, started, t, m, undoing + restoring) {
      if l.name in t1 { assert t1[l.name] in started && Call(Op.Close, t1[l.name], false) in undoing + restoring; }
    }
  }

  /** An old name is registered as before, with no new mark, unless the Listen of its listener
      failed in the rollback, or the Close of its replacement did. */
  predicate Explained(t0: Table, m0: set<string>, wanted: Table, t: Table, m: set<string>, back: seq<Call>, n: string)
    requires n in t0
  {
    || (Stayed(t0, t, n) && (n in m ==> n in m0))
    || Call(Op.Listen, t0[n], false) in back
    || (n in wanted && Call(Op.Close, wanted[n], false) in back)
  }

  ghost predicate AllExplained(t0: Table, m0: set<string>, wanted: Table, t: Table, m: set<string>, back: seq<Call>) {
    forall n :: n in t0 ==> Explained(t0, m0, wanted, t, m, back, n)
  }

  lemma RollbackExplains(t0: Table, m0: set<string>, wanted: Table, replacements: seq<Listener>,
                         t1: Table, m1: set<string>, closed: seq<Listener>, started: seq<Listener>,
                         t: Table, m: set<string>, back: seq<Call>)
    requires IsStartList(t0, m0, wanted, replacements) && (forall l :: l in started ==> l in replacements)
    requires Closings(t0, m0, t1, m1, closed) && ByName(t0)
    requires forall n :: n in t1 ==> n in t && t[n] == t1[n] && (n in m <==> n in m1)
    requires forall l :: l in closed ==> Accounted(l, started, t, m, back)
    ensures AllExplained(t0, m0, wanted, t, m, back)
  {
    forall n | n in t0 ensures Explained(t0, m0, wanted, t, m, back, n) {
      if n !in t1 {
        var l := t0[n];
        assert l in closed && l.name == n && Accounted(l, started, t, m, back);
        if s :| s in started && s.name == n && Call(Op.Close, s, false) in back {
          assert s in replacements && Registered(wanted, s);
        }
      }
    }
  }

  lemma AfterRollback(t0: Table, m0: set<string>, wanted: Table, dropOld: bool, stopped: seq<Listener>,
                      replacements: seq<Listener>, t1: Table, m1: set<string>,
                      closed: seq<Listener>, started: seq<Listener>, t: Table, m: set<string>)
    requires IsStopList(t0, m0, wanted, dropOld, stopped) && IsStartList(t0, m0, wanted, replacements)
    requires Closings(t0, m0, t1, m1, closed)
    requires (forall l :: l in closed ==> l in stopped) && (forall l :: l in started ==> l in replacements)
    requires forall n :: n in t1 ==> n in t && t[n] == t1[n] && (n in m <==> n in m1)
    requires forall n :: n in t && n !in t1 ==> t[n] in closed || (t[n] in started && n in m)
    requires ByName(t0) && ByName(t)
    ensures forall n :: n in t ==> Stayed(t0, t, n) || Stuck(t0, m0, wanted, t, m, n)
    ensures forall n :: n in t0 && !Stops(t0, m0, wanted, dropOld, n) ==> Stayed(t0, t, n) && (n in m <==> n in m0)
  {
    forall n | n in t ensures Stayed(t0, t, n) || Stuck(t0, m0, wanted, t, m, n) {
      if n !in t1 && t[n] in closed { assert Registered(t0, t[n]); }
      if n !in t1 && t[n] in started { assert t[n] in replacements; }
    }
  }

  ghost predicate Startable(replacements: seq<Listener>, closed: seq<Listener>, t: Table, w: World) {
    forall l :: l in replacements ==> l in w && l !in closed && l.name !in t
  }

  lemma ReadyToStart(t0: Table, m0: set<string>, wanted: Table, dropOld: bool, stopped: seq<Listener>,
                     closed: seq<Listener>,
                     replacements: seq<Listener>, t1: Table, m1: set<string>, w: World, w1: World)
    requires IsStopList(t0, m0, wanted, dropOld, stopped) && IsStartList(t0, m0, wanted, replacements)
    requires Closings(t0, m0, t1, m1, closed)
    requires (forall l :: l in stopped ==> l in closed) && (forall l :: l in closed ==> l in stopped)
    requires Wired(t0, w) && forall n :: n in wanted ==> wanted[n] !in w && wanted[n] in w1
    ensures Startable(replacements, closed, t1, w1)
  {
    forall l | l in replacements ensures l in w1 && l !in closed && l.name !in t1 {
      assert Registered(wanted, l);
      KeptIffNotStopped(t0, m0, wanted, dropOld, t1, m1, stopped, closed, l.name);
    }
  }

  lemma UntouchedBits(t0: Table, m0: set<string>, wanted: Table, dropOld: bool, stopped: seq<Listener>,
                      replacements: seq<Listener>,
                      w: World, w0: World, w1: World)
    requires IsStopList(t0, m0, wanted, dropOld, stopped) && IsStartList(t0, m0, wanted, replacements)
    requires Wired(t0, w) && (forall l :: l in w ==> l in w0) && forall n :: n in wanted ==> wanted[n] !in w
    requires SameOutside(w0, w1, stopped + replacements)
    ensures forall n :: n in t0 && !Stops(t0, m0, wanted, dropOld, n) ==> t0[n] in w1 && w1[t0[n]] == w0[t0[n]]
  {
    forall n | n in t0 && !Stops(t0, m0, wanted, dropOld, n) ensures t0[n] in w1 && w1[t0[n]] == w0[t0[n]] {
      var l := t0[n];
      assert l in stopped ==> Stops(t0, m0, wanted, dropOld, l.name);
      assert l in replacements ==> Registered(wanted, l);
      assert l !in stopped + replacements;
    }
  }

  /** New listeners neither hold an address nor serve. */
  lemma Introduce(t: Table, m: set<string>, w: World, wanted: Table)
    requires Sound(t, m, w) && forall n :: n in wanted ==> wanted[n] !in w
    ensures var w' := w + map l | l in wanted.Values :: Bits(false, false);
            && Sound(t, m, w') && w'.Keys == w.Keys + wanted.Values
            && (forall l :: l in w ==> w'[l] == w[l])
            && (forall n :: n in wanted ==> wanted[n] in w' && !Holding(w', wanted[n]))
  {
    forall n | n in wanted ensures wanted[n] in wanted.Values { }
  }

  /** t is t0 with some of the listeners ls filed under names that were free. */
  ghost predicate Added(t0: Table, t: Table, ls: seq<Listener>) {
    && (forall n :: n in t0 ==> n in t && t[n] == t0[n])
    && (forall n :: n in t && n !in t0 ==> t[n] in ls)
  }

  lemma AddedStep(t0: Table, t: Table, t': Table, ls: seq<Listener>, l: Listener)
    requires Added(t0, t, ls) && l in ls && (t' == t || (l.name !in t && t' == t[l.name := l]))
    ensures Added(t0, t', ls)
  {
  }

  /** Marks of names registered all along stay, and a new mark is on a registered name. */
  ghost predicate MarksKept(t0: Table, m0: set<string>, t: Table, m: set<string>) {
    && (forall n :: n in t0 ==> (n in m <==> n in m0))
    && (forall n :: n in m ==> n in m0 || n in t)
  }

  /** The first k of the closed listeners have been brought back, if clean. */
  ghost predicate Restoring(closed: seq<Listener>, k: nat, t: Table, m: set<string>, w: World, clean: bool) {
    && (forall i :: k <= i < |closed| ==> !Holding(w, closed[i]))
    && (forall i :: 0 <= i < k && i < |closed| && clean ==> Registered(t, closed[i]) && closed[i].name !in m)
  }

  lemma RestoringStep(closed: seq<Listener>, k: nat, t: Table, m: set<string>, w: World, clean: bool,
                      t': Table, m': set<string>, w': World, done: bool)
    requires Apart(closed) && k < |closed| && Restoring(closed, k, t, m, w, clean)
    requires w'.Keys == w.Keys && SameOutside(w, w', [closed[k]])
    requires t' == t || (closed[k].name !in t && t' == t[closed[k].name := closed[k]])
    requires forall n :: n != closed[k].name || n in t ==> (n in m' <==> n in m)
    requires done ==> Registered(t', closed[k]) && closed[k].name !in m'
    ensures Restoring(closed, k + 1, t', m', w', clean && done)
  {
    forall i | k + 1 <= i < |closed| ensures !Holding(w', closed[i]) {
      assert closed[i] !in [closed[k]];
    }
  }

  /** A name that is new in the table is marked, and its listener would not close; and a listener
      whose call failed is in the table. */
  ghost predicate Leftovers(t0: Table, t: Table, m: set<string>, calls: seq<Call>) {
    && (forall n :: n in t && n !in t0 ==> n in m && Call(Op.Close, t[n], false) in calls)
    && (forall c :: c in calls && !c.ok ==> Registered(t, c.l))
  }

  /** The started listeners from the i-th on have been undone, by these calls. */
  ghost predicate Undoing(t0: Table, m0: set<string>, w0: World, started: seq<Listener>, i: nat,
                          t: Table, m: set<string>, w: World, calls: seq<Call>, clean: bool) {
    && w.Keys == w0.Keys && SameOutside(w0, w, started) && (forall l :: l in started ==> l in w0)
    && Added(t0, t, started) && (clean ==> t == t0) && MarksKept(t0, m0, t, m)
    && (forall k :: 0 <= k < i && k < |started| ==> started[k].name !in t)
    && Leftovers(t0, t, m, calls) && clean == AllOk(calls)
  }

  lemma UndoingStep(t0: Table, m0: set<string>, w0: World, started: seq<Listener>, i: nat,
                    t: Table, m: set<string>, w: World, calls: seq<Call>, clean: bool,
                    t': Table, m': set<string>, w': World, done: bool)
    requires Apart(started) && i < |started| && Undoing(t0, m0, w0, started, i + 1, t, m, w, calls, clean)
    requires w'.Keys == w.Keys && SameOutside(w, w', [started[i]])
    requires t' == if done then t else t[started[i].name := started[i]]
    requires m' == if done then m - {started[i].name} else m + {started[i].name}
    ensures Undoing(t0, m0, w0, started, i, t', m', w', calls + [Call(Op.Close, started[i], done)], clean && done)
  {
    var l, c := started[i], Call(Op.Close, started[i], done);
    assert l.name !in t;
    AllOkAppend(calls, c);
    AddedStep(t0, t, t', started, l);
    LeftoversStep(t0, t, m, calls, t', m', l, done);
  }

  lemma LeftoversStep(t0: Table, t: Table, m: set<string>, calls: seq<Call>, t': Table, m': set<string>,
                      l: Listener, done: bool)
    requires Leftovers(t0, t, m, calls) && l.name !in t
    requires t' == if done then t else t[l.name := l]
    requires m' == if done then m - {l.name} else m + {l.name}
    ensures Leftovers(t0, t', m', calls + [Call(Op.Close, l, done)])
  {
  }

  /** None of the listeners has its name taken. */
  ghost predicate Free(t: Table, ls: seq<Listener>) {
    forall i :: 0 <= i < |ls| ==> ls[i].name !in t
  }

  lemma FreeStep(t: Table, ls: seq<Listener>, k: nat)
    requires k < |ls|
    ensures Free(t, ls[..k + 1]) <==> Free(t, ls[..k]) && ls[k].name !in t
  {
    assert ls[..k + 1] == ls[..k] + [ls[k]];
  }

  /** From the k-th on, a name is taken exactly if it was at the start. */
  ghost predicate NamesLeft(t0: Table, t: Table, ls: seq<Listener>, k: nat) {
    forall i :: k <= i < |ls| ==> (ls[i].name in t <==> ls[i].name in t0)
  }

  lemma NamesLeftStep(t0: Table, t: Table, t': Table, ls: seq<Listener>, k: nat)
    requires Apart(ls) && k < |ls| && NamesLeft(t0, t, ls, k)
    requires t' == t || t' == t[ls[k].name := ls[k]]
    ensures NamesLeft(t0, t', ls, k + 1)
  {
  }

  /** The first k of the closed listeners have been dealt with, by these calls; `clean` says that
      each was brought back. */
  ghost predicate Returning(t0: Table, m0: set<string>, w0: World, closed: seq<Listener>, k: nat,
                            t: Table, m: set<string>, w: World, calls: seq<Call>, clean: bool) {
    && w.Keys == w0.Keys && SameOutside(w0, w, closed) && (forall l :: l in closed ==> l in w0)
    && Added(t0, t, closed) && MarksKept(t0, m0, t, m)
    && k <= |closed| && Restoring(closed, k, t, m, w, clean) && NamesLeft(t0, t, closed, k)
    && (clean <==> Free(t0, closed[..k]) && AllOk(calls))
    && forall i :: 0 <= i < k ==> Tried(t0, t, m, closed[i], calls)
  }

  /** The listener is back and unmarked, unless its name was taken or its Listen failed. */
  predicate Tried(t0: Table, t: Table, m: set<string>, l: Listener, calls: seq<Call>) {
    || (Registered(t, l) && l.name !in m)
    || l.name in t0
    || Call(Op.Listen, l, false) in calls
  }

  lemma TriedStep(t0: Table, closed: seq<Listener>, k: nat, t: Table, m: set<string>, calls: seq<Call>,
                  t': Table, m': set<string>, made: seq<Call>)
    requires Apart(closed) && k < |closed| && forall i :: 0 <= i < k ==> Tried(t0, t, m, closed[i], calls)
    requires t' == t || (closed[k].name !in t && t' == t[closed[k].name := closed[k]])
    requires forall n :: n != closed[k].name || n in t ==> (n in m' <==> n in m)
    requires Tried(t0, t', m', closed[k], made)
    ensures forall i :: 0 <= i < k + 1 ==> Tried(t0, t', m', closed[i], calls + made)
  {
  }

  lemma ReturningStep(t0: Table, m0: set<string>, w0: World, closed: seq<Listener>, k: nat,
                      t: Table, m: set<string>, w: World, calls: seq<Call>, clean: bool,
                      t': Table, m': set<string>, w': World, made: seq<Call>, done: bool)
    requires Apart(closed) && k < |closed| && Returning(t0, m0, w0, closed, k, t, m, w, calls, clean)
    requires w'.Keys == w.Keys && SameOutside(w, w', [closed[k]])
    requires t' == t || (closed[k].name !in t && t' == t[closed[k].name := closed[k]])
    requires forall n :: n != closed[k].name || n in t ==> (n in m' <==> n in m)
    requires closed[k].name in m' ==> closed[k].name in m || closed[k].name in t'
    requires done ==> Registered(t', closed[k]) && closed[k].name !in m'
    requires done <==> closed[k].name !in t && AllOk(made)
    requires done || closed[k].name in t || Call(Op.Listen, closed[k], false) in made
    ensures Returning(t0, m0, w0, closed, k + 1, t', m', w', calls + made, clean && done)
  {
    TriedStep(t0, closed, k, t, m, calls, t', m', made);
    AddedStep(t0, t, t', closed, closed[k]);
    RestoringStep(closed, k, t, m, w, clean, t', m', w', done);
    NamesLeftStep(t0, t, t', closed, k);
    FreeStep(t0, closed, k);
    AllOkSplits(calls, made);
  }

  lemma ReturningDone(t0: Table, m0: set<string>, w0: World, closed: seq<Listener>,
                      t: Table, m: set<string>, w: World, calls: seq<Call>, clean: bool)
    requires Returning(t0, m0, w0, closed, |closed|, t, m, w, calls, clean)
    ensures clean ==> forall l :: l in closed ==> Registered(t, l) && l.name !in m
    ensures clean <==> Free(t0, closed) && AllOk(calls)
  {
    assert closed[..|closed|] == closed;
  }

  /** The first k of the started listeners are registered. */
  ghost predicate Registering(t0: Table, m0: set<string>, started: seq<Listener>, k: nat,
                              t: Table, m: set<string>, w: World) {
    && k <= |started| && Wired(t, w) && Serving(t, m, w) && Handled(t, w, started[k..]) && Added(t0, t, started)
    && (forall i :: 0 <= i < k ==> Registered(t, started[i]) && started[i].name !in m)
    && (forall i :: k <= i < |started| ==> started[i].name !in t)
    && m <= m0 && (forall n :: n in t0 ==> (n in m <==> n in m0))
  }

  lemma RegisteringStep(t0: Table, m0: set<string>, started: seq<Listener>, k: nat,
                        t: Table, m: set<string>, w: World)
    requires Apart(started) && k < |started| && IsServing(w, started[k])
    requires Registering(t0, m0, started, k, t, m, w)
    ensures var l := started[k]; Registering(t0, m0, started, k + 1, t[l.name := l], m - {l.name}, w)
  {
    var l := started[k];
    assert started[k..] == [l] + started[k + 1..];
    RegisterStep(t, m, w, l, started[k + 1..]);
    AddedStep(t0, t, t[l.name := l], started, l);
  }

  lemma RegisterStep(t: Table, m: set<string>, w: World, l: Listener, rest: seq<Listener>)
    requires Wired(t, w) && Serving(t, m, w) && Handled(t, w, [l] + rest) && IsServing(w, l) && l.name !in t
    ensures var t', m' := t[l.name := l], m - {l.name}; Wired(t', w) && Serving(t', m', w) && Handled(t', w, rest)
  {
  }

  lemma KeepServing(t: Table, m: set<string>, w0: World, w: World, ls: seq<Listener>)
    requires Wired(t, w0) && Serving(t, m, w0) && SameOutside(w0, w, ls) && w.Keys == w0.Keys
    requires forall l :: l in ls ==> l.name !in t
    ensures Wired(t, w) && Serving(t, m, w)
  {
  }

  ghost predicate SameOutside(w0: World, w: World, ls: seq<Listener>) {
    forall l :: l in w0 && l !in ls ==> l in w && w[l] == w0[l]
  }

  lemma SameTwice(w0: World, w1: World, w2: World, a: seq<Listener>, sub: seq<Listener>, b: seq<Listener>)
    requires SameOutside(w0, w1, a) && (forall l :: l in sub ==> l in a)
    requires SameOutside(w1, w2, b + sub) || SameOutside(w1, w2, sub)
    ensures SameOutside(w0, w2, a + b)
  {
  }

  /** Table and marks are those of before without the closed listeners, and these were all
      in it under different names. */
  ghost predicate Closings(t0: Table, m0: set<string>, t: Table, m: set<string>, closed: seq<Listener>) {
    && Apart(closed)
    && (forall n :: n in t ==> n in t0 && t[n] == t0[n])
    && (forall n :: n in t0 && n !in t ==> t0[n] in closed)
    && (forall l :: l in closed ==> Registered(t0, l) && l.name !in t)
    && (forall n :: n in m <==> n in m0 && !(n in t0 && n !in t))
  }

  lemma ClosingsStep(t0: Table, m0: set<string>, t: Table, m: set<string>, closed: seq<Listener>, l: Listener)
    requires Closings(t0, m0, t, m, closed) && Registered(t, l)
    ensures Closings(t0, m0, t - {l.name}, m - {l.name}, closed + [l])
  {
    var c := closed + [l];
    forall i, j | 0 <= i < j < |c| ensures c[i].name != c[j].name {
      if j == |closed| { assert closed[i] in closed; }
    }
  }

  lemma CloseKeepsSound(t: Table, m: set<string>, w: World, l: Listener)
    requires Sound(t, m, w) && Registered(t, l)
    ensures Sound(t - {l.name}, m - {l.name}, w[l := Bits(false, false)])
  {
  }

  // ------------------------------------------------------------------- the whole patch

  ghost predicate IsStopList(t: Table, m: set<string>, wanted: Table, dropOld: bool, ls: seq<Listener>) {
    && Apart(ls)
    && (forall l :: l in ls ==> Registered(t, l) && Stops(t, m, wanted, dropOld, l.name))
    && (forall n :: Stops(t, m, wanted, dropOld, n) ==> t[n] in ls)
  }

  ghost predicate IsStartList(t: Table, m: set<string>, wanted: Table, ls: seq<Listener>) {
    && Apart(ls)
    && (forall l :: l in ls ==> Registered(wanted, l) && Starts(t, m, wanted, l.name))
    && (forall n :: Starts(t, m, wanted, n) ==> wanted[n] in ls)
  }

  /** Closing every stopped listener and registering every started one is what the patch
      intends. */
  lemma PatchedAsIntended(t0: Table, m0: set<string>, wanted: Table, dropOld: bool,
                          t1: Table, m1: set<string>, stopped: seq<Listener>, closed: seq<Listener>,
                          t2: Table, started: seq<Listener>)
    requires IsStopList(t0, m0, wanted, dropOld, stopped) && IsStartList(t0, m0, wanted, started)
    requires Closings(t0, m0, t1, m1, closed)
    requires (forall l :: l in stopped ==> l in closed) && (forall l :: l in closed ==> l in stopped)
    requires Added(t1, t2, started) && forall l :: l in started ==> Registered(t2, l)
    requires ByName(t0) && ByName(t2) && ByName(wanted)
    ensures t2 == Intended(t0, m0, wanted, dropOld)
  {
    var t := Intended(t0, m0, wanted, dropOld);
    forall n ensures n in t2 <==> n in t ensures n in t2 && n in t ==> t2[n] == t[n] {
      KeptIffNotStopped(t0, m0, wanted, dropOld, t1, m1, stopped, closed, n);
      if Starts(t0, m0, wanted, n) {
        assert wanted[n] in started;
        assert Registered(t2, wanted[n]);
      }
    }
  }

  ghost predicate ByName(t: Table) { forall n :: n in t ==> t[n].name == n }

  lemma KeptIffNotStopped(t0: Table, m0: set<string>, wanted: Table, dropOld: bool,
                          t1: Table, m1: set<string>, stopped: seq<Listener>, closed: seq<Listener>, n: string)
    requires IsStopList(t0, m0, wanted, dropOld, stopped) && ByName(t0)
    requires Closings(t0, m0, t1, m1, closed)
    requires (forall l :: l in stopped ==> l in closed) && (forall l :: l in closed ==> l in stopped)
    ensures n in t1 <==> n in t0 && !Stops(t0, m0, wanted, dropOld, n)
    ensures n in t1 ==> t1[n] == t0[n]
  {
    if n in t0 && n !in t1 { assert t0[n] in closed; }
    if Stops(t0, m0, wanted, dropOld, n) { assert t0[n] in stopped; }
  }

  /** When every closed listener is back, the table is the one before the patch. */
  lemma RolledBack(t0: Table, m0: set<string>, t1: Table, m1: set<string>, closed: seq<Listener>, t2: Table)
    requires Closings(t0, m0, t1, m1, closed) && Added(t1, t2, closed) && forall l :: l in closed ==> Registered(t2, l)
    requires ByName(t0) && ByName(t2)
    ensures t2 == t0
  {
    forall n ensures n in t2 <==> n in t0 ensures n in t2 && n in t0 ==> t2[n] == t0[n] {
      if n in t0 && n !in t1 { assert t0[n] in closed; }
      if n in t2 && n !in t1 { assert t2[n] in closed; }
    }
  }
}
