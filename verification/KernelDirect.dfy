/** The kernel-direct classifier of tunnel/kernel_direct.go, and its soundness against the
    rule engine: a destination it calls direct is one the engine sends to a DIRECT adapter
    for every flow that shares the destination and the inbound. */
module KernelDirect {
  import opened GroupGraph
  import opened RuleEngine

  predicate IsDirect(w: Snapshot, name: string) {
    name in w.proxies && w.proxies[name].kind.Direct?
  }

  /** The loop of `ClassifyKernelDirect`, from a rule on. */
  function Decide(w: Snapshot, rules: seq<Rule>, m: Metadata, unsafeProxy: bool): bool {
    if rules == [] then !unsafeProxy
    else
      var r := rules[0];
      if !r.safe then Decide(w, rules[1..], m, unsafeProxy || !IsDirect(w, r.adapter))
      else
        var x := r.matcher(m, false);
        if !x.matched || x.adapter !in w.proxies then Decide(w, rules[1..], x.after, unsafeProxy)
        else
          match w.proxies[x.adapter].kind
          case Pass => Decide(w, rules[1..], x.after, unsafeProxy)
          case PassRule => Decide(w, rules[1..], x.after, unsafeProxy)
          case Direct => !unsafeProxy
          case Rematch => false
          case OtherKind => false
  }

  const TUN: nat := 1

  /** The metadata the classifier evaluates. */
  function Probe(base: Metadata, host: string, dst: nat): Metadata {
    base.(host := host, dst := dst, udp := false, inType := TUN)
  }

  /** The metadata when the turn of the i-th rule comes: only safe rules are asked, without lookup
      helpers. */
  function ProbedAt(rules: seq<Rule>, m: Metadata, i: nat): Metadata
    requires i <= |rules|
  {
    if i == 0 then m
    else ProbedAt(rules[1..], if rules[0].safe then rules[0].matcher(m, false).after else m, i - 1)
  }

  /** The rule leaves the verdict open: an unsafe one names a Direct proxy; a safe one does not
      match, or matches to no proxy there is, or to one that passes on. */
  predicate LeavesOpen(w: Snapshot, r: Rule, m: Metadata) {
    if !r.safe then r.adapter in w.proxies && w.proxies[r.adapter].kind.Direct?
    else
      var x := r.matcher(m, false);
      x.matched && x.adapter in w.proxies ==> w.proxies[x.adapter].kind.Pass? || w.proxies[x.adapter].kind.PassRule?
  }

  /** The verdict is direct at the i-th rule: it is safe and matches to a Direct proxy, or it is
      the end of the list, and every rule before leaves the verdict open. */
  ghost predicate SettledAt(w: Snapshot, rules: seq<Rule>, m: Metadata, i: int) {
    && 0 <= i <= |rules|
    && (forall j :: 0 <= j < i ==> LeavesOpen(w, rules[j], ProbedAt(rules, m, j)))
    && (i < |rules| ==>
          var x := rules[i].matcher(ProbedAt(rules, m, i), false);
          rules[i].safe && x.matched && x.adapter in w.proxies && w.proxies[x.adapter].kind.Direct?)
  }

  lemma SettledNext(w: Snapshot, rules: seq<Rule>, m: Metadata, i: nat)
    requires rules != []
    ensures var n := if rules[0].safe then rules[0].matcher(m, false).after else m;
            SettledAt(w, rules, m, i + 1) <==> LeavesOpen(w, rules[0], m) && SettledAt(w, rules[1..], n, i)
  {
    var n, rest := if rules[0].safe then rules[0].matcher(m, false).after else m, rules[1..];
    if SettledAt(w, rules, m, i + 1) {
      assert LeavesOpen(w, rules[0], ProbedAt(rules, m, 0));
      forall j | 0 <= j < i ensures LeavesOpen(w, rest[j], ProbedAt(rest, n, j)) {
        assert LeavesOpen(w, rules[j + 1], ProbedAt(rules, m, j + 1));
      }
    }
    if LeavesOpen(w, rules[0], m) && SettledAt(w, rest, n, i) {
      forall j | 0 <= j < i + 1 ensures LeavesOpen(w, rules[j], ProbedAt(rules, m, j)) {
        if j > 0 { assert LeavesOpen(w, rest[j - 1], ProbedAt(rest, n, j - 1)); }
      }
    }
  }

  /** The loop says direct if and only if the verdict is settled so at some rule. */
  lemma {:induction false} DecideExactly(w: Snapshot, rules: seq<Rule>, m: Metadata)
    ensures Decide(w, rules, m, false) <==> exists i :: SettledAt(w, rules, m, i)
  {
    if rules == [] {
      assert SettledAt(w, rules, m, 0);
    } else {
      var n := if rules[0].safe then rules[0].matcher(m, false).after else m;
      DecideExactly(w, rules[1..], n);
      DirectNeedsNoFlag(w, rules[1..], m);
      if i :| SettledAt(w, rules, m, i) {
        if i > 0 { SettledNext(w, rules, m, i - 1); }
      }
      if i :| SettledAt(w, rules[1..], n, i) { SettledNext(w, rules, m, i); }
      assert SettledAt(w, rules, m, 0) <==> (rules[0].safe && rules[0].matcher(m, false).matched
        && IsDirect(w, rules[0].matcher(m, false).adapter));
    }
  }

  method ClassifyKernelDirect(w: Snapshot, base: Metadata, host: string, dst: nat) returns (direct: bool)
    ensures w.mode.DirectMode? ==> direct
    ensures w.mode.GlobalMode? ==> !direct
    ensures w.mode.RuleMode? && base.specialProxy != "" ==>
              (direct <==> base.specialProxy in w.proxies && w.proxies[base.specialProxy].kind.Direct?)
    ensures w.mode.RuleMode? && base.specialProxy == "" ==>
              var p := base.(host := host, dst := dst, udp := false, inType := TUN);
              var rules := if base.specialRules in w.subRules then w.subRules[base.specialRules] else w.rules;
              direct <==> exists i :: SettledAt(w, rules, p, i)
  {
    if w.mode.DirectMode? { return true; }
    if w.mode.GlobalMode? { return false; }
    var m := Probe(base, host, dst);
    ghost var p := m;
    DecideExactly(w, GetRules(w, m), m);
    if m.specialProxy != "" { return IsDirect(w, m.specialProxy); }
    var unsafeProxyRuleBefore := false;
    var rules := GetRules(w, m);
    for i := 0 to |rules|
      invariant Decide(w, rules[i..], m, unsafeProxyRuleBefore) == Decide(w, rules, p, false)
    {
      assert rules[i..][1..] == rules[i + 1..];
      var r := rules[i];
      if !r.safe {
        if !IsDirect(w, r.adapter) { unsafeProxyRuleBefore := true; }
        continue;
      }
      var x := r.matcher(m, false);
      m := x.after;
      if !x.matched || x.adapter !in w.proxies { continue; }
      match w.proxies[x.adapter].kind {
        case Pass => continue;
        case PassRule => continue;
        case Direct => return !unsafeProxyRuleBefore;
        case Rematch => return false;
        case OtherKind => return false;
      }
    }
    direct := !unsafeProxyRuleBefore;
  }

  // ------------------------------------------------------------------------- hypotheses

  /** Two flows to the same destination from the same inbound. */
  predicate Agree(m: Metadata, n: Metadata) {
    && m.host == n.host && m.dst == n.dst && m.inName == n.inName && m.inType == n.inType
    && m.specialRules == n.specialRules
  }

  /** For flows to the destination of d: matching leaves the shared fields alone; a safe rule
      reads nothing else, with or without the lookup helpers; an unsafe rule that names a DIRECT
      proxy can only match to the adapter it names. A rule that resolves the host obeys this once
      the destination has an address, since there is then nothing to resolve. */
  ghost predicate Lawful(w: Snapshot, r: Rule, d: Metadata) {
    && (forall m, h {:trigger r.matcher(m, h)} :: Agree(m, d) ==>
          Agree(r.matcher(m, h).after, d) && r.matcher(m, h).after.udp == m.udp)
    && (r.safe ==> forall m, n, g, h {:trigger r.matcher(m, g), r.matcher(n, h)} :: Agree(m, d) && Agree(n, d) ==>
          r.matcher(m, g).matched == r.matcher(n, h).matched && r.matcher(m, g).adapter == r.matcher(n, h).adapter)
    && (!r.safe && IsDirect(w, r.adapter) ==>
          forall m, h {:trigger r.matcher(m, h)} :: Agree(m, d) && r.matcher(m, h).matched ==>
            r.matcher(m, h).adapter == r.adapter)
  }

  ghost predicate AllLawful(w: Snapshot, rules: seq<Rule>, d: Metadata) {
    forall i :: 0 <= i < |rules| ==> Lawful(w, rules[i], d)
  }

  predicate BuiltIn(k: Kind) { k.Direct? || k.Pass? || k.PassRule? }

  /** Direct, Pass and PassRule adapters are the built-in leaves, which carry UDP; the name
      DIRECT is one. */
  ghost predicate BuiltIns(w: Snapshot) {
    && (forall x :: x in w.proxies && BuiltIn(w.proxies[x].kind) ==> w.proxies[x].udp && !w.proxies[x].group)
    && IsDirect(w, "DIRECT")
  }

  const UNSET: nat := 0

  /** A rule on the destination address, which resolves the host if there is no address yet and
      the lookup helper is there. */
  function AddressRule(inside: nat -> bool, lookup: string -> nat, target: string): Rule {
    Rule(true, false, target, (m: Metadata, helper: bool) =>
      var m' := if m.dst == UNSET && helper then m.(dst := lookup(m.host)) else m;
      Match(m'.dst != UNSET && inside(m'.dst), target, m'))
  }

  /** For a destination with an address it is lawful; without one it is lawful exactly if the
      lookup finds none either. */
  lemma AddressRuleIsLawful(w: Snapshot, inside: nat -> bool, lookup: string -> nat, target: string, d: Metadata)
    ensures Lawful(w, AddressRule(inside, lookup, target), d) <==> d.dst != UNSET || lookup(d.host) == UNSET
  {
    var r := AddressRule(inside, lookup, target);
    if d.dst == UNSET && lookup(d.host) != UNSET {
      assert !Agree(r.matcher(d, true).after, d);
    }
  }

  /** Two things the classifier does not look at, read off the same rules: the rule that
      settled the answer is enabled, and no enabled rule on the way matched to a PassRule
      adapter. */
  function Trusted(w: Snapshot, rules: seq<Rule>, m: Metadata): bool {
    if rules == [] then true
    else
      var r := rules[0];
      if !r.safe then Trusted(w, rules[1..], m)
      else
        var x := r.matcher(m, false);
        if !x.matched || x.adapter !in w.proxies then Trusted(w, rules[1..], x.after)
        else
          match w.proxies[x.adapter].kind
          case Pass => Trusted(w, rules[1..], x.after)
          case PassRule => r.disabled && Trusted(w, rules[1..], x.after)
          case Direct => !r.disabled
          case Rematch => true
          case OtherKind => true
  }

  // -------------------------------------------------------------------------- soundness

  ghost predicate GoesDirect(w: Snapshot, e: Effect) {
    (e.Take? && e.a.kind.Direct?) || e.Next?
  }

  lemma LeafScan(w: Snapshot, order: seq<Mapping>, a: Adapter, m: Metadata)
    requires Grouped(w, order) && !a.group
    ensures ScanChain(w, order, a, m) == if a.kind.Pass? then Skip else if a.kind.Rematch? then Again(a) else Clean
  {
  }

  lemma {:induction false} DirectNeedsNoFlag(w: Snapshot, rules: seq<Rule>, m: Metadata)
    ensures !Decide(w, rules, m, true)
  {
    if rules != [] {
      DirectNeedsNoFlag(w, rules[1..], m);
      DirectNeedsNoFlag(w, rules[1..], rules[0].matcher(m, false).after);
    }
  }

  /** One pass of the engine, for the flow n, over rules the classifier called direct when
      evaluating m. */
  lemma {:induction false} PassGoesDirect(w: Snapshot, order: seq<Mapping>, rules: seq<Rule>,
                                          d: Metadata, m: Metadata, n: Metadata)
    requires Grouped(w, order) && BuiltIns(w) && AllLawful(w, rules, d) && Agree(m, d) && Agree(n, d)
    requires Decide(w, rules, m, false) && Trusted(w, rules, m)
    ensures GoesDirect(w, OnePass(w, order, rules, n))
  {
    if rules != [] {
      var r, rest := rules[0], rules[1..];
      assert Lawful(w, r, d) && AllLawful(w, rest, d);
      var x, y := r.matcher(m, false), Apply(r, n);
      assert Agree(y.after, d);
      if y.matched && y.adapter in w.proxies && !w.proxies[y.adapter].group {
        LeafScan(w, order, w.proxies[y.adapter], y.after);
      }
      if !r.safe {
        DirectNeedsNoFlag(w, rest, m);
        PassGoesDirect(w, order, rest, d, m, y.after);
      } else if !x.matched || x.adapter !in w.proxies || !w.proxies[x.adapter].kind.Direct? {
        PassGoesDirect(w, order, rest, d, x.after, y.after);
      }
    }
  }

  /** Soundness. In rule mode without a special proxy, a destination the classifier calls
      direct goes to a DIRECT adapter for every flow with that destination and inbound,
      whatever its source, ports, user, process or network, and at the first pass. */
  lemma ClassifierIsSound(w: Snapshot, order: seq<Mapping>, base: Metadata, host: string, dst: nat, flow: Metadata)
    requires Grouped(w, order) && KnownRematches(w) && BuiltIns(w)
    requires var p := Probe(base, host, dst);
             && AllLawful(w, GetRules(w, p), p) && Agree(p, flow)
             && Decide(w, GetRules(w, p), p, false) && Trusted(w, GetRules(w, p), p)
    ensures var r := Matched(w, order, flow); r.adapter.Some? && r.adapter.value.kind.Direct? && r.passes == 1
  {
    var p := Probe(base, host, dst);
    PassGoesDirect(w, order, GetRules(w, p), p, p, flow);
  }

  // -------------------------------------------------------- what happens without Trusted

  /** No enabled unsafe rule matches the flow, whatever the rules before it filled in. */
  function Quiet(rules: seq<Rule>, n: Metadata): bool {
    if rules == [] then true
    else
      var y := Apply(rules[0], n);
      (!rules[0].safe ==> !y.matched) && Quiet(rules[1..], y.after)
  }

  predicate AllEnabled(rules: seq<Rule>) {
    forall i :: 0 <= i < |rules| ==> !rules[i].disabled
  }

  lemma {:induction false} PassExactly(w: Snapshot, order: seq<Mapping>, rules: seq<Rule>,
                                       d: Metadata, m: Metadata, n: Metadata)
    requires Grouped(w, order) && BuiltIns(w) && AllLawful(w, rules, d) && Agree(m, d) && Agree(n, d)
    requires Decide(w, rules, m, false) && AllEnabled(rules) && Quiet(rules, n)
    ensures GoesDirect(w, OnePass(w, order, rules, n)) <==> Trusted(w, rules, m)
    ensures !GoesDirect(w, OnePass(w, order, rules, n)) ==> OnePass(w, order, rules, n).Take?
  {
    if rules != [] {
      var r, rest := rules[0], rules[1..];
      assert Lawful(w, r, d) && AllLawful(w, rest, d);
      var x, y := r.matcher(m, false), Apply(r, n);
      assert Agree(y.after, d);
      if y.matched && y.adapter in w.proxies && !w.proxies[y.adapter].group {
        LeafScan(w, order, w.proxies[y.adapter], y.after);
      }
      if !r.safe {
        DirectNeedsNoFlag(w, rest, m);
        PassExactly(w, order, rest, d, m, y.after);
      } else if !x.matched || x.adapter !in w.proxies || w.proxies[x.adapter].kind.Pass? {
        PassExactly(w, order, rest, d, x.after, y.after);
      }
    }
  }

  /** Exactness. With no rule disabled, for a flow no unsafe rule matches, the verdict
      "direct" is right if and only if no rule on the way matched to a PassRule adapter. */
  lemma WrongExactlyOnPassRule(w: Snapshot, order: seq<Mapping>, base: Metadata, host: string, dst: nat, flow: Metadata)
    requires Grouped(w, order) && KnownRematches(w) && BuiltIns(w)
    requires var p := Probe(base, host, dst);
             AllLawful(w, GetRules(w, p), p) && Agree(p, flow) && Decide(w, GetRules(w, p), p, false)
    requires AllEnabled(GetRules(w, flow)) && Quiet(GetRules(w, flow), flow)
    ensures var p, r := Probe(base, host, dst), Matched(w, order, flow);
            (r.adapter.Some? && r.adapter.value.kind.Direct?) <==> Trusted(w, GetRules(w, p), p)
  {
    var p := Probe(base, host, dst);
    PassExactly(w, order, GetRules(w, p), p, p, flow);
  }

  /** The target that settles the flow n: that of the first enabled safe rule that matches the
      destination, unless its chain passes on or it cannot carry the flow. The matches are those
      of m, without lookups; the flow only says what groups pick and whether it is UDP. */
  ghost function FirstTarget(w: Snapshot, order: seq<Mapping>, rules: seq<Rule>, m: Metadata,
                             n: Metadata): Option<Adapter>
    requires Grouped(w, order)
  {
    if rules == [] then None
    else
      var r, rest, n' := rules[0], rules[1..], Apply(rules[0], n).after;
      if !r.safe || r.disabled then FirstTarget(w, order, rest, m, n')
      else
        var x := r.matcher(m, false);
        if !x.matched || x.adapter !in w.proxies then FirstTarget(w, order, rest, x.after, n')
        else
          var a := w.proxies[x.adapter];
          var s := ScanChain(w, order, a, n');
          if s.Skip? || (s.Clean? && n'.udp && !a.udp) then FirstTarget(w, order, rest, x.after, n') else Some(a)
  }

  lemma {:induction false} PassTakesTarget(w: Snapshot, order: seq<Mapping>, rules: seq<Rule>,
                                           d: Metadata, m: Metadata, n: Metadata)
    requires Grouped(w, order) && BuiltIns(w) && AllLawful(w, rules, d) && Agree(m, d) && Agree(n, d)
    requires Quiet(rules, n)
    ensures var e, t := OnePass(w, order, rules, n), FirstTarget(w, order, rules, m, n);
            && (e.Next? <==> t.None?) && (e.Take? ==> t == Some(e.a))
            && (e.Restart? ==> t.Some? && !t.value.kind.Direct?)
  {
    if rules != [] {
      var r, rest := rules[0], rules[1..];
      assert Lawful(w, r, d) && AllLawful(w, rest, d);
      var x, y := r.matcher(m, false), Apply(r, n);
      if y.matched && y.adapter in w.proxies && !w.proxies[y.adapter].group {
        LeafScan(w, order, w.proxies[y.adapter], y.after);
      }
      PassTakesTarget(w, order, rest, d, if r.safe && !r.disabled then x.after else m, y.after);
    }
  }

  /** Exactness, disabled rules, PassRule targets and groups included. For a flow no unsafe rule
      matches, the engine answers with a Direct adapter at its first pass if and only if the
      first target that settles the flow is Direct, or there is none. */
  lemma DirectExactly(w: Snapshot, order: seq<Mapping>, base: Metadata, host: string, dst: nat, flow: Metadata)
    requires Grouped(w, order) && KnownRematches(w) && BuiltIns(w)
    requires var p := Probe(base, host, dst); AllLawful(w, GetRules(w, p), p) && Agree(p, flow)
    requires Quiet(GetRules(w, flow), flow)
    ensures var p, r := Probe(base, host, dst), Matched(w, order, flow);
            var t := FirstTarget(w, order, GetRules(w, p), p, flow);
            && (GoesTo(r, Direct) && r.passes == 1 <==> t.None? || t.value.kind.Direct?)
            && (w.rematches == {} ==> r.passes == 1)
  {
    var p := Probe(base, host, dst);
    PassTakesTarget(w, order, GetRules(w, p), p, p, flow);
    RestartsEnd(w, order, flow, {});
  }

  predicate GoesTo(r: Answer, k: Kind) { r.adapter.Some? && r.adapter.value.kind == k }

  function Always(adapter: string): (Metadata, bool) -> Match {
    (m: Metadata, h: bool) => Match(true, adapter, m)
  }

  const DIRECT := Adapter("DIRECT", Direct, true, false)
  const PROXY := Adapter("PROXY", OtherKind, true, false)
  const PASSRULE := Adapter("PASS-RULE", PassRule, true, false)

  function Example(rules: seq<Rule>): Snapshot {
    Snapshot(RuleMode, map["DIRECT" := DIRECT, "PROXY" := PROXY, "PASS-RULE" := PASSRULE], rules, map[],
             (x: string, m: Metadata) => None, (a: Adapter, m: Metadata) => None, {})
  }

  /** Neither half of Trusted can be dropped: a disabled DIRECT rule before a proxy rule,
      and a rule that targets PASS-RULE, are both called direct and both go elsewhere. */
  lemma UntrustedVerdictsAreWrong(m: Metadata)
    ensures var w := Example([Rule(true, true, "DIRECT", Always("DIRECT")),
                              Rule(true, false, "PROXY", Always("PROXY"))]);
            && Grouped(w, []) && KnownRematches(w) && BuiltIns(w) && AllLawful(w, w.rules, m)
            && Decide(w, w.rules, m, false) && Matched(w, [], m).adapter == Some(PROXY)
    ensures var w := Example([Rule(true, false, "PASS-RULE", Always("PASS-RULE"))]);
            && Grouped(w, []) && KnownRematches(w) && BuiltIns(w) && AllLawful(w, w.rules, m)
            && Decide(w, w.rules, m, false) && Matched(w, [], m).adapter == Some(PASSRULE)
  {
    var a, b := Rule(true, true, "DIRECT", Always("DIRECT")), Rule(true, false, "PROXY", Always("PROXY"));
    var w := Example([a, b]);
    assert Decide(w, [a, b], m, false);
    assert [a, b][1..] == [b];
    LeafScan(w, [], PROXY, m);
    assert OneRule(w, [], a, m) == Next(m) && OneRule(w, [], b, m) == Take(PROXY, m);
    assert OnePass(w, [], [b], m) == Take(PROXY, m);
    assert OnePass(w, [], [a, b], m) == Take(PROXY, m);
    var c := Rule(true, false, "PASS-RULE", Always("PASS-RULE"));
    var v := Example([c]);
    assert [c][1..] == [];
    assert Decide(v, [c], m, false);
    LeafScan(v, [], PASSRULE, m);
    assert OneRule(v, [], c, m) == Take(PASSRULE, m);
    assert OnePass(v, [], [c], m) == Take(PASSRULE, m);
  }

  // ------------------------------------------------------------------ the routing modes

  /** `resolveMetadata`: a special proxy comes before the mode. */
  ghost function Outbound(w: Snapshot, order: seq<Mapping>, m: Metadata): Option<Adapter>
    requires Grouped(w, order) && KnownRematches(w)
  {
    var lookup := (x: string) => if x in w.proxies then Some(w.proxies[x]) else None;
    if m.specialProxy != "" then lookup(m.specialProxy)
    else
      match w.mode
      case DirectMode => lookup("DIRECT")
      case GlobalMode => lookup("GLOBAL")
      case RuleMode => Matched(w, order, m).adapter
  }

  /** With a special proxy in rule mode the classifier is exact. In direct mode it always
      says yes, which is right if and only if there is no special proxy or it is DIRECT. */
  lemma ModesExactly(w: Snapshot, order: seq<Mapping>, flow: Metadata)
    requires Grouped(w, order) && KnownRematches(w) && BuiltIns(w)
    ensures var out := Outbound(w, order, flow);
            var direct := out.Some? && out.value.kind.Direct?;
            && (w.mode.RuleMode? && flow.specialProxy != "" ==> (direct <==> IsDirect(w, flow.specialProxy)))
            && (w.mode.DirectMode? ==> (direct <==> flow.specialProxy == "" || IsDirect(w, flow.specialProxy)))
            && (w.mode.GlobalMode? && flow.specialProxy == "" ==> (direct <==> IsDirect(w, "GLOBAL")))
            && (w.mode.RuleMode? && flow.specialProxy == "" ==> out == Matched(w, order, flow).adapter)
  {
  }
}
