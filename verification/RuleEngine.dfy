/** The rule engine of tunnel/tunnel.go: one pass over the rules, nested groups, Pass and
    Rematch adapters, and the restart loop. Rule matchers, group choices and the metadata
    update of a Rematch adapter are parameters of the routing snapshot. */
module RuleEngine {
  import opened GroupGraph

  datatype Kind = Direct | Pass | PassRule | Rematch | OtherKind

  /** An outbound. Only a group unwraps to another one. */
  datatype Adapter = Adapter(name: string, kind: Kind, udp: bool, group: bool)

  /** A flow. `rest` stands for source, ports, user, process and whatever else the
      destination-only rules do not read. */
  datatype Metadata = Metadata(
    host: string, dst: nat, inName: string, inType: nat, specialRules: string,
    specialProxy: string, rematchName: string, udp: bool, rest: nat)

  /** The outcome of a matcher. Looking up an address or a process may fill in metadata. */
  datatype Match = Match(matched: bool, adapter: string, after: Metadata)

  /** A rule behind its wrapper; the flag given to the matcher says whether the lookup
      helpers are there. */
  datatype Rule = Rule(safe: bool, disabled: bool, adapter: string, matcher: (Metadata, bool) -> Match)

  datatype Mode = RuleMode | GlobalMode | DirectMode

  datatype Snapshot = Snapshot(
    mode: Mode,
    proxies: map<string, Adapter>,
    rules: seq<Rule>,
    subRules: map<string, seq<Rule>>,
    choose: (string, Metadata) -> Option<Adapter>,        // the current pick of a group
    update: (Adapter, Metadata) -> Option<Metadata>,      // a Rematch adapter's dial
    rematches: set<string>)                               // the names of Rematch adapters

  function GetRules(w: Snapshot, m: Metadata): seq<Rule> {
    if m.specialRules in w.subRules then w.subRules[m.specialRules] else w.rules
  }

  function Unwrap(w: Snapshot, a: Adapter, m: Metadata): Option<Adapter> {
    if a.group then w.choose(a.name, m) else None
  }

  // ------------------------------------------------------------------- nested groups

  /** The place of a group in the sorted configuration, counted from 1; 0 for others. */
  ghost function Position(order: seq<Mapping>, x: string): nat
    requires AllDecode(order)
  {
    if order == [] then 0
    else if order[|order| - 1].name == x then |order| else Position(order[..|order| - 1], x)
  }

  /** Groups pick among the members of an accepted configuration, or leave the groups. */
  ghost predicate Grouped(w: Snapshot, order: seq<Mapping>) {
    && Sound(order) && DependenciesFirst(order)
    && forall x, m {:trigger w.choose(x, m)} ::
         w.choose(x, m).Some? && w.choose(x, m).value.group ==> Edge(order, x, w.choose(x, m).value.name)
  }

  const GLOBAL: string := "GLOBAL"

  /** The configuration with the built-in selector over all proxies and groups, which is added
      after the sort when no group of that name is configured. */
  function WithGlobal(order: seq<Mapping>, all: seq<string>): seq<Mapping> { order + [Decodes(GLOBAL, all)] }

  /** It is as good as the sort's own output: the selector comes last, and nothing refers to it. */
  lemma GlobalComesLast(order: seq<Mapping>, all: seq<string>)
    requires Sound(order) && DependenciesFirst(order) && GLOBAL !in all
    requires !IsGroup(order, GLOBAL) && forall x :: !Edge(order, x, GLOBAL)
    ensures Sound(WithGlobal(order, all)) && DependenciesFirst(WithGlobal(order, all))
  {
    var b, n := WithGlobal(order, all), |order|;
    assert b[..n] == order && forall i :: 0 <= i < n ==> b[i] == order[i];
    forall k, y | 0 <= k < |b| && y in b[k].proxies && IsGroup(b, y) ensures EarlierIn(b, k, y) {
      assert k < n ==> Edge(order, order[k].name, y);
      assert y != GLOBAL;
      var j :| 0 <= j < |b| && b[j].name == y;
      assert j < n && order[j].name == y;
      if k < n {
        assert IsGroup(order, y) && EarlierIn(order, k, y);
        var i :| 0 <= i < k && order[i].name == y;
        assert b[i].name == y;
      }
    }
  }

  /** So what holds of sorted configurations holds of a snapshot with the selector: configured
      groups pick among their members, the selector among all. */
  lemma GroupedWithGlobal(w: Snapshot, order: seq<Mapping>, all: seq<string>)
    requires Sound(order) && DependenciesFirst(order) && GLOBAL !in all
    requires !IsGroup(order, GLOBAL) && forall x :: !Edge(order, x, GLOBAL)
    requires forall x, m {:trigger w.choose(x, m)} :: w.choose(x, m).Some? && w.choose(x, m).value.group ==>
               if x == GLOBAL then w.choose(x, m).value.name in all else Edge(order, x, w.choose(x, m).value.name)
    ensures Grouped(w, WithGlobal(order, all))
  {
    GlobalComesLast(order, all);
    var b := WithGlobal(order, all);
    forall x, m {:trigger w.choose(x, m)} | w.choose(x, m).Some? && w.choose(x, m).value.group
      ensures Edge(b, x, w.choose(x, m).value.name)
    {
      var y := w.choose(x, m).value.name;
      if x == GLOBAL {
        assert b[|order|].name == x && y in b[|order|].proxies;
      } else {
        var i :| 0 <= i < |order| && order[i].name == x && y in order[i].proxies;
        assert b[i] == order[i];
      }
    }
  }

  lemma {:induction false} PositionOf(order: seq<Mapping>, i: nat)
    requires Sound(order) && i < |order|
    ensures Position(order, order[i].name) == i + 1
  {
    var n := |order| - 1;
    if i < n { PositionOf(order[..n], i); }
  }

  lemma {:induction false} PositionZero(order: seq<Mapping>, x: string)
    requires AllDecode(order) && !IsGroup(order, x)
    ensures Position(order, x) == 0
  {
    if order != [] {
      assert order[|order| - 1].name != x;
      PositionZero(order[..|order| - 1], x);
    }
  }

  /** A group comes after the groups it lists, so unwrapping moves towards the front. */
  lemma PositionDrops(order: seq<Mapping>, x: string, y: string)
    requires Sound(order) && DependenciesFirst(order) && Edge(order, x, y)
    ensures Position(order, y) < Position(order, x)
  {
    var k :| 0 <= k < |order| && order[k].name == x && y in order[k].proxies;
    PositionOf(order, k);
    if IsGroup(order, y) {
      assert EarlierIn(order, k, y);
      var j :| 0 <= j < k && order[j].name == y;
      PositionOf(order, j);
    } else {
      PositionZero(order, y);
    }
  }

  ghost function Depth(order: seq<Mapping>, a: Adapter): nat
    requires AllDecode(order)
  {
    if a.group then Position(order, a.name) + 1 else 0
  }

  lemma UnwrapDescends(w: Snapshot, order: seq<Mapping>, a: Adapter, m: Metadata)
    requires Grouped(w, order) && Unwrap(w, a, m).Some?
    ensures Depth(order, Unwrap(w, a, m).value) < Depth(order, a)
  {
    var c := Unwrap(w, a, m).value;
    if c.group { PositionDrops(order, a.name, c.name); }
  }

  /** The adapter, what it unwraps to, and so on. */
  ghost function Chain(w: Snapshot, order: seq<Mapping>, a: Adapter, m: Metadata): (c: seq<Adapter>)
    requires Grouped(w, order)
    ensures c != [] && c[0] == a
    decreases Depth(order, a)
  {
    if Unwrap(w, a, m).None? then [a]
    else UnwrapDescends(w, order, a, m); [a] + Chain(w, order, Unwrap(w, a, m).value, m)
  }

  /** In an accepted configuration every unwrap chain visits each group at most once, and
      is no longer than the number of groups plus two. */
  lemma {:induction false} ChainVisitsOnce(w: Snapshot, order: seq<Mapping>, a: Adapter, m: Metadata)
    requires Grouped(w, order)
    ensures var c := Chain(w, order, a, m);
            && |c| <= Depth(order, a) + 1 <= |order| + 2
            && (forall i :: 0 <= i < |c| ==> Depth(order, c[i]) <= Depth(order, a) - i)
            && (forall i, j :: 0 <= i < j < |c| ==> Depth(order, c[j]) < Depth(order, c[i]))
            && (forall i, j :: 0 <= i < j < |c| && c[i].group && c[j].group ==> c[i].name != c[j].name)
    decreases Depth(order, a)
  {
    PositionBound(order, a.name);
    var u := Unwrap(w, a, m);
    if u.Some? {
      UnwrapDescends(w, order, a, m);
      ChainVisitsOnce(w, order, u.value, m);
      var c, d := Chain(w, order, a, m), Chain(w, order, u.value, m);
      assert forall i :: 0 < i < |c| ==> c[i] == d[i - 1];
    }
  }

  lemma {:induction false} PositionBound(order: seq<Mapping>, x: string)
    requires AllDecode(order)
    ensures Position(order, x) <= |order|
  {
    if order != [] { PositionBound(order[..|order| - 1], x); }
  }

  // ------------------------------------------------------------------ one chain, one pass

  /** What the chain of a matched adapter says: nothing special, a Pass, or a Rematch. */
  datatype Scan = Clean | Skip | Again(a: Adapter)

  ghost function ScanChain(w: Snapshot, order: seq<Mapping>, a: Adapter, m: Metadata): Scan
    requires Grouped(w, order)
    decreases Depth(order, a)
  {
    if a.kind.Pass? then Skip
    else if a.kind.Rematch? then Again(a)
    else if Unwrap(w, a, m).None? then Clean
    else UnwrapDescends(w, order, a, m); ScanChain(w, order, Unwrap(w, a, m).value, m)
  }

  predicate Special(a: Adapter) { a.kind.Pass? || a.kind.Rematch? }

  predicate NoneSpecial(c: seq<Adapter>) { forall i :: 0 <= i < |c| ==> !Special(c[i]) }

  function FirstSpecial(c: seq<Adapter>): Scan {
    if c == [] then Clean
    else if c[0].kind.Pass? then Skip
    else if c[0].kind.Rematch? then Again(c[0])
    else FirstSpecial(c[1..])
  }

  lemma {:induction false} CleanMeansNoneSpecial(c: seq<Adapter>)
    ensures FirstSpecial(c).Clean? <==> NoneSpecial(c)
    ensures FirstSpecial(c).Again? ==> FirstSpecial(c).a in c && FirstSpecial(c).a.kind.Rematch?
  {
    if c != [] {
      CleanMeansNoneSpecial(c[1..]);
      assert c == [c[0]] + c[1..];
      if Special(c[0]) { assert c[0] in c; }
    }
  }

  /** The scan reads off the first Pass or Rematch of the chain. */
  lemma {:induction false} ScanIsFirstSpecial(w: Snapshot, order: seq<Mapping>, a: Adapter, m: Metadata)
    requires Grouped(w, order)
    ensures ScanChain(w, order, a, m) == FirstSpecial(Chain(w, order, a, m))
    decreases Depth(order, a)
  {
    var c := Chain(w, order, a, m);
    if !Special(a) && Unwrap(w, a, m).Some? {
      UnwrapDescends(w, order, a, m);
      var b := Unwrap(w, a, m).value;
      ScanIsFirstSpecial(w, order, b, m);
      assert c[1..] == Chain(w, order, b, m);
    } else if !Special(a) {
      assert c[1..] == [];
    }
  }

  method RunScan(w: Snapshot, ghost order: seq<Mapping>, a: Adapter, m: Metadata) returns (r: Scan)
    requires Grouped(w, order)
    ensures r == ScanChain(w, order, a, m)
  {
    var adapter := Some(a);
    while adapter.Some?
      invariant adapter.Some? ==> ScanChain(w, order, adapter.value, m) == ScanChain(w, order, a, m)
      invariant adapter.None? ==> ScanChain(w, order, a, m) == Clean
      decreases adapter.Some?, if adapter.Some? then Depth(order, adapter.value) else 0
    {
      if adapter.value.kind.Pass? { return Skip; }
      if adapter.value.kind.Rematch? { return Again(adapter.value); }
      ghost var b := adapter.value;
      if Unwrap(w, b, m).Some? { UnwrapDescends(w, order, b, m); }
      adapter := Unwrap(w, adapter.value, m);
    }
    r := Clean;
  }

  /** The wrapper around a rule: a disabled one matches nothing and looks nothing up. */
  function Apply(r: Rule, m: Metadata): Match {
    if r.disabled then Match(false, "", m) else r.matcher(m, true)
  }

  /** What one rule does to a pass. */
  datatype Effect = Next(m: Metadata) | Take(a: Adapter, m: Metadata) | Restart(a: Adapter, m: Metadata)

  ghost function OneRule(w: Snapshot, order: seq<Mapping>, r: Rule, m: Metadata): Effect
    requires Grouped(w, order)
  {
    var x := Apply(r, m);
    if !x.matched || x.adapter !in w.proxies then Next(x.after)
    else
      var a := w.proxies[x.adapter];
      match ScanChain(w, order, a, x.after)
      case Skip => Next(x.after)
      case Again(b) => Restart(b, x.after)
      case Clean => if x.after.udp && !a.udp then Next(x.after) else Take(a, x.after)
  }

  ghost function OnePass(w: Snapshot, order: seq<Mapping>, rules: seq<Rule>, m: Metadata): Effect
    requires Grouped(w, order)
  {
    if rules == [] then Next(m)
    else
      var e := OneRule(w, order, rules[0], m);
      if e.Next? then OnePass(w, order, rules[1..], e.m) else e
  }

  method RunPass(w: Snapshot, ghost order: seq<Mapping>, rules: seq<Rule>, m0: Metadata) returns (e: Effect)
    requires Grouped(w, order)
    ensures e == OnePass(w, order, rules, m0)
  {
    var m := m0;
    var i := 0;
    while i < |rules|
      invariant 0 <= i <= |rules| && OnePass(w, order, rules[i..], m) == OnePass(w, order, rules, m0)
    {
      ghost var before := m;
      assert rules[i..][1..] == rules[i + 1..];
      var x := Apply(rules[i], m);
      m := x.after;
      i := i + 1;
      if x.matched && x.adapter in w.proxies {
        var a := w.proxies[x.adapter];
        var s := RunScan(w, order, a, m);
        match s {
          case Skip =>
          case Again(b) => return Restart(b, m);
          case Clean =>
            if !(m.udp && !a.udp) { return Take(a, m); }
        }
      }
    }
    e := Next(m);
  }

  // --------------------------------------------------------------------- the whole match

  datatype Why = ByRule | NoRule | RematchCycle | RematchFailed

  /** The adapter, how it came about, the metadata then, the passes made, and the names of the
      Rematch adapters that restarted the match, in order. */
  datatype Answer = Answer(adapter: Option<Adapter>, why: Why, at: Metadata, passes: nat, rematched: seq<string>)

  /** Every Rematch adapter that can turn up has a known name. */
  ghost predicate KnownRematches(w: Snapshot) {
    && (forall x :: x in w.proxies && w.proxies[x].kind.Rematch? ==> w.proxies[x].name in w.rematches)
    && (forall x, m {:trigger w.choose(x, m)} ::
          w.choose(x, m).Some? && w.choose(x, m).value.kind.Rematch? ==> w.choose(x, m).value.name in w.rematches)
  }

  lemma {:induction false} ScanKnown(w: Snapshot, order: seq<Mapping>, a: Adapter, m: Metadata)
    requires Grouped(w, order) && KnownRematches(w) && (a.kind.Rematch? ==> a.name in w.rematches)
    ensures var r := ScanChain(w, order, a, m); r.Again? ==> r.a.kind.Rematch? && r.a.name in w.rematches
    decreases Depth(order, a)
  {
    if !Special(a) && Unwrap(w, a, m).Some? {
      UnwrapDescends(w, order, a, m);
      ScanKnown(w, order, Unwrap(w, a, m).value, m);
    }
  }

  /** What a pass can end with. */
  lemma {:induction false} PassEnds(w: Snapshot, order: seq<Mapping>, rules: seq<Rule>, m: Metadata)
    requires Grouped(w, order) && KnownRematches(w)
    ensures var e := OnePass(w, order, rules, m);
            && (e.Restart? ==> e.a.kind.Rematch? && e.a.name in w.rematches)
            && (e.Take? ==> (e.m.udp ==> e.a.udp) && NoneSpecial(Chain(w, order, e.a, e.m)))
  {
    if rules != [] {
      var e := OneRule(w, order, rules[0], m);
      var x := Apply(rules[0], m);
      if x.matched && x.adapter in w.proxies {
        var a := w.proxies[x.adapter];
        ScanKnown(w, order, a, x.after);
        ScanIsFirstSpecial(w, order, a, x.after);
        CleanMeansNoneSpecial(Chain(w, order, a, x.after));
      }
      if e.Next? { PassEnds(w, order, rules[1..], e.m); }
    }
  }

  /** The restart loop, with the names of the Rematch adapters already used. */
  ghost function Restarts(w: Snapshot, order: seq<Mapping>, m: Metadata, used: set<string>): Answer
    requires Grouped(w, order) && KnownRematches(w) && used <= w.rematches
    decreases w.rematches - used
  {
    PassEnds(w, order, GetRules(w, m), m);
    match OnePass(w, order, GetRules(w, m), m)
    case Take(a, m1) => Answer(Some(a), ByRule, m1, 1, [])
    case Next(m1) => Answer(if "DIRECT" in w.proxies then Some(w.proxies["DIRECT"]) else None, NoRule, m1, 1, [])
    case Restart(a, m1) =>
      if a.name in used then Answer(Some(a), RematchCycle, m1, 1, [])
      else
        match w.update(a, m1)
        case None => Answer(Some(a), RematchFailed, m1, 1, [])
        case Some(m2) =>
          var r := Restarts(w, order, m2, used + {a.name});
          r.(passes := r.passes + 1, rematched := [a.name] + r.rematched)
  }

  ghost function Matched(w: Snapshot, order: seq<Mapping>, m: Metadata): Answer
    requires Grouped(w, order) && KnownRematches(w)
  {
    Restarts(w, order, m, {})
  }

  /** What an answer says of itself, given the Rematch names used before. */
  ghost predicate Accounted(w: Snapshot, order: seq<Mapping>, used: set<string>, r: Answer)
    requires Grouped(w, order)
  {
    && (r.why.ByRule? ==> r.adapter.Some? && (r.at.udp ==> r.adapter.value.udp)
                          && NoneSpecial(Chain(w, order, r.adapter.value, r.at)))
    && (r.why.NoRule? ==> r.adapter == if "DIRECT" in w.proxies then Some(w.proxies["DIRECT"]) else None)
    && (r.why.RematchCycle? ==> r.adapter.Some? && r.adapter.value.kind.Rematch?
                                && (r.adapter.value.name in used || r.adapter.value.name in r.rematched))
    && (r.why.RematchFailed? ==>
              r.adapter.Some? && r.adapter.value.kind.Rematch? && w.update(r.adapter.value, r.at).None?)
  }

  lemma {:induction false} RestartsEnd(w: Snapshot, order: seq<Mapping>, m: Metadata, used: set<string>)
    requires Grouped(w, order) && KnownRematches(w) && used <= w.rematches
    ensures var r := Restarts(w, order, m, used);
            && 1 <= r.passes == |r.rematched| + 1 <= |w.rematches - used| + 1
            && Accounted(w, order, used, r)
    decreases w.rematches - used
  {
    PassEnds(w, order, GetRules(w, m), m);
    var e := OnePass(w, order, GetRules(w, m), m);
    if e.Restart? && e.a.name !in used && w.update(e.a, e.m).Some? {
      RestartsEnd(w, order, w.update(e.a, e.m).value, used + {e.a.name});
      assert w.rematches - used == (w.rematches - (used + {e.a.name})) + {e.a.name};
    }
  }

  /** `matchWithState` finishes within one pass more than there are Rematch names; a rule's
      answer has no Pass and no Rematch in its chain and carries UDP if asked to; a Rematch
      comes back only from a cycle, which is a name that restarted the match before, or from a
      failed update, unless it is what goes by the name DIRECT. */
  method MatchWithState(w: Snapshot, ghost order: seq<Mapping>, metadata: Metadata) returns (r: Answer)
    requires Grouped(w, order) && KnownRematches(w)
    ensures r == Matched(w, order, metadata)
    ensures 1 <= r.passes == |r.rematched| + 1 <= |w.rematches| + 1
    ensures r.why.ByRule? ==> r.adapter.Some? && (r.at.udp ==> r.adapter.value.udp)
    ensures r.why.ByRule? ==> NoneSpecial(Chain(w, order, r.adapter.value, r.at))
    ensures r.why.NoRule? ==> r.adapter == if "DIRECT" in w.proxies then Some(w.proxies["DIRECT"]) else None
    ensures r.adapter.Some? && r.adapter.value.kind.Rematch? ==>
              r.why.RematchCycle? || r.why.RematchFailed? || r.why.NoRule?
    ensures r.why.RematchCycle? ==>
              r.adapter.Some? && r.adapter.value.kind.Rematch? && r.adapter.value.name in r.rematched
    ensures r.why.RematchFailed? ==>
              r.adapter.Some? && r.adapter.value.kind.Rematch? && w.update(r.adapter.value, r.at).None?
  {
    var m := metadata;
    var rematchChain: seq<string> := [];
    var passes: nat := 0;
    ghost var used: set<string> := {};
    MatchedAccounts(w, order, metadata);
    while true
      invariant used <= w.rematches && forall x :: x in rematchChain <==> x in used
      invariant var r := Restarts(w, order, m, used);
                r.(passes := r.passes + passes, rematched := rematchChain + r.rematched) == Matched(w, order, metadata)
      decreases w.rematches - used
    {
      PassEnds(w, order, GetRules(w, m), m);
      ghost var rest := Restarts(w, order, m, used);
      var e := RunPass(w, order, GetRules(w, m), m);
      passes := passes + 1;
      match e {
        case Take(a, m1) => return Answer(Some(a), ByRule, m1, passes, rematchChain);
        case Next(m1) =>
          var direct := if "DIRECT" in w.proxies then Some(w.proxies["DIRECT"]) else None;
          return Answer(direct, NoRule, m1, passes, rematchChain);
        case Restart(a, m1) =>
          if a.name in rematchChain { return Answer(Some(a), RematchCycle, m1, passes, rematchChain); }
          var u := w.update(a, m1);
          if u.None? { return Answer(Some(a), RematchFailed, m1, passes, rematchChain); }
          assert rematchChain + rest.rematched == rematchChain + [a.name] + rest.rematched[1..];
          rematchChain := rematchChain + [a.name];
          used := used + {a.name};
          m := u.value;
          assert rest.rematched[1..] == Restarts(w, order, m, used).rematched;
      }
    }
  }

  lemma MatchedAccounts(w: Snapshot, order: seq<Mapping>, m: Metadata)
    requires Grouped(w, order) && KnownRematches(w)
    ensures var r := Matched(w, order, m);
            && 1 <= r.passes == |r.rematched| + 1 <= |w.rematches| + 1
            && Accounted(w, order, {}, r)
            && (r.why.ByRule? ==> !r.adapter.value.kind.Rematch?)
  {
    RestartsEnd(w, order, m, {});
    assert w.rematches - {} == w.rematches;
    var r := Matched(w, order, m);
    if r.why.ByRule? { assert !Special(Chain(w, order, r.adapter.value, r.at)[0]); }
  }
}
