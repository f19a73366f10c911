/** What a match is, told without the functions that compute it: which list each pass goes over,
    which rule settles a pass, and how the passes follow each other. */
module RuleLaws {
  import opened GroupGraph
  import opened RuleEngine

  // ------------------------------------------------------------------------- the chain

  /** Each adapter of the chain is the current pick of the group before it, and the last picks
      nothing or is no group. */
  lemma {:induction false} ChainLinks(w: Snapshot, order: seq<Mapping>, a: Adapter, m: Metadata)
    requires Grouped(w, order)
    ensures var c := Chain(w, order, a, m);
      && c != [] && c[0] == a
      && (forall i :: 0 <= i < |c| - 1 ==> c[i].group && w.choose(c[i].name, m) == Some(c[i + 1]))
      && (c[|c| - 1].group ==> w.choose(c[|c| - 1].name, m).None?)
    decreases Depth(order, a)
  {
    if Unwrap(w, a, m).Some? {
      UnwrapDescends(w, order, a, m);
      var b := Unwrap(w, a, m).value;
      ChainLinks(w, order, b, m);
      assert Chain(w, order, a, m) == [a] + Chain(w, order, b, m);
    }
  }

  /** The i-th adapter of the chain is the first Pass or Rematch. */
  predicate FirstAt(c: seq<Adapter>, i: int) {
    0 <= i < |c| && Special(c[i]) && forall j :: 0 <= j < i ==> !Special(c[j])
  }

  lemma {:induction false} FirstSpecialAt(c: seq<Adapter>) returns (i: nat)
    ensures FirstSpecial(c).Clean? ==> NoneSpecial(c)
    ensures !FirstSpecial(c).Clean? ==> FirstAt(c, i)
    ensures FirstSpecial(c).Skip? ==> c[i].kind.Pass?
    ensures FirstSpecial(c).Again? ==> c[i].kind.Rematch? && FirstSpecial(c) == Again(c[i])
  {
    i := 0;
    if c != [] && !Special(c[0]) {
      var k := FirstSpecialAt(c[1..]);
      i := k + 1;
      assert c == [c[0]] + c[1..];
    }
  }

  // -------------------------------------------------------------------------- one pass

  /** The metadata when the turn of the i-th rule comes: every enabled rule before it was asked,
      with the lookup helpers, and may have filled something in. */
  function At(rules: seq<Rule>, m: Metadata, i: nat): Metadata
    requires i <= |rules|
  {
    if i == 0 then m
    else At(rules[1..], if rules[0].disabled then m else rules[0].matcher(m, true).after, i - 1)
  }

  /** The rule is enabled and matches to a proxy there is. */
  predicate Matches(w: Snapshot, r: Rule, m: Metadata) {
    !r.disabled && r.matcher(m, true).matched && r.matcher(m, true).adapter in w.proxies
  }

  function TargetOf(w: Snapshot, r: Rule, m: Metadata): Adapter
    requires Matches(w, r, m)
  {
    w.proxies[r.matcher(m, true).adapter]
  }

  ghost function ChainOf(w: Snapshot, order: seq<Mapping>, r: Rule, m: Metadata): seq<Adapter>
    requires Grouped(w, order) && Matches(w, r, m)
  {
    Chain(w, order, TargetOf(w, r, m), r.matcher(m, true).after)
  }

  /** It does not match, or its chain meets a Pass before any Rematch, or it cannot carry the
      flow. */
  ghost predicate PassedOver(w: Snapshot, order: seq<Mapping>, r: Rule, m: Metadata)
    requires Grouped(w, order)
  {
    Matches(w, r, m) ==>
      || (exists i :: FirstAt(ChainOf(w, order, r, m), i) && ChainOf(w, order, r, m)[i].kind.Pass?)
      || (NoneSpecial(ChainOf(w, order, r, m)) && r.matcher(m, true).after.udp && !TargetOf(w, r, m).udp)
  }

  ghost predicate Chooses(w: Snapshot, order: seq<Mapping>, r: Rule, m: Metadata, a: Adapter)
    requires Grouped(w, order)
  {
    && Matches(w, r, m) && a == TargetOf(w, r, m) && NoneSpecial(ChainOf(w, order, r, m))
    && (r.matcher(m, true).after.udp ==> a.udp)
  }

  ghost predicate Rematches(w: Snapshot, order: seq<Mapping>, r: Rule, m: Metadata, b: Adapter)
    requires Grouped(w, order)
  {
    && Matches(w, r, m) && b.kind.Rematch?
    && exists i :: FirstAt(ChainOf(w, order, r, m), i) && ChainOf(w, order, r, m)[i] == b
  }

  lemma OneRuleIs(w: Snapshot, order: seq<Mapping>, r: Rule, m: Metadata)
    requires Grouped(w, order)
    ensures var e := OneRule(w, order, r, m);
      && e.m == (if r.disabled then m else r.matcher(m, true).after)
      && (e.Next? ==> PassedOver(w, order, r, m))
      && (e.Take? ==> Chooses(w, order, r, m, e.a))
      && (e.Restart? ==> Rematches(w, order, r, m, e.a))
  {
    if Matches(w, r, m) {
      var a, n := TargetOf(w, r, m), r.matcher(m, true).after;
      ScanIsFirstSpecial(w, order, a, n);
      var i := FirstSpecialAt(Chain(w, order, a, n));
      assert !FirstSpecial(Chain(w, order, a, n)).Clean? ==> FirstAt(ChainOf(w, order, r, m), i);
    }
  }

  /** A pass ends at the first rule that is not passed over. If that chooses its target the pass
      takes it, and if its chain meets a Rematch the pass restarts with it; without such a rule it
      runs to the end. */
  lemma {:induction false} PassIs(w: Snapshot, order: seq<Mapping>, rules: seq<Rule>, m: Metadata) returns (i: nat)
    requires Grouped(w, order)
    ensures i <= |rules| && forall j :: 0 <= j < i ==> PassedOver(w, order, rules[j], At(rules, m, j))
    ensures var e := OnePass(w, order, rules, m);
      if i == |rules| then e == Next(At(rules, m, i))
      else
        && e.m == At(rules, m, i + 1)
        && ((e.Take? && Chooses(w, order, rules[i], At(rules, m, i), e.a))
            || (e.Restart? && Rematches(w, order, rules[i], At(rules, m, i), e.a)))
  {
    i := 0;
    if rules != [] {
      OneRuleIs(w, order, rules[0], m);
      var e := OneRule(w, order, rules[0], m);
      if e.Next? {
        var k := PassIs(w, order, rules[1..], e.m);
        i := k + 1;
        forall j | 0 <= j < i ensures PassedOver(w, order, rules[j], At(rules, m, j)) {
          if j > 0 { assert rules[j] == rules[1..][j - 1] && At(rules, m, j) == At(rules[1..], e.m, j - 1); }
        }
      }
    }
  }

  // ------------------------------------------------------------------- the whole match

  /** The pass at this metadata: over the sub-rules it names, if there are such, else over the
      rules. */
  ghost predicate PassAt(w: Snapshot, order: seq<Mapping>, m: Metadata, e: Effect)
    requires Grouped(w, order)
  {
    && (m.specialRules in w.subRules ==> e == OnePass(w, order, w.subRules[m.specialRules], m))
    && (m.specialRules !in w.subRules ==> e == OnePass(w, order, w.rules, m))
  }

  /** The pass at m meets a Rematch adapter of that name, which updates the metadata to n. */
  ghost predicate Continues(w: Snapshot, order: seq<Mapping>, m: Metadata, name: string, n: Metadata)
    requires Grouped(w, order)
  {
    exists e :: PassAt(w, order, m, e) && e.Restart? && e.a.name == name && w.update(e.a, e.m) == Some(n)
  }

  /** The pass at m gives the answer, when the names in `before` have been used. */
  ghost predicate Ends(w: Snapshot, order: seq<Mapping>, m: Metadata, before: set<string>, r: Answer)
    requires Grouped(w, order)
  {
    exists e :: PassAt(w, order, m, e) && r.at == e.m &&
      match e
      case Take(a, _) => r.why.ByRule? && r.adapter == Some(a)
      case Next(_) =>
        r.why.NoRule? && r.adapter == if "DIRECT" in w.proxies then Some(w.proxies["DIRECT"]) else None
      case Restart(a, n) =>
        && r.adapter == Some(a)
        && if a.name in before then r.why.RematchCycle? else r.why.RematchFailed? && w.update(a, n).None?
  }

  function NamesIn(l: seq<string>): set<string> { set x | x in l }

  /** The passes of a match: each but the last continues to the next with a name not used before,
      and the last gives the answer. */
  ghost predicate Trace(w: Snapshot, order: seq<Mapping>, used: set<string>, ms: seq<Metadata>, r: Answer)
    requires Grouped(w, order)
  {
    && |ms| == r.passes == |r.rematched| + 1
    && (forall i :: 0 <= i < |r.rematched| ==> Continues(w, order, ms[i], r.rematched[i], ms[i + 1]))
    && (forall i :: 0 <= i < |r.rematched| ==> r.rematched[i] !in used + NamesIn(r.rematched[..i]))
    && Ends(w, order, ms[|ms| - 1], used + NamesIn(r.rematched), r)
  }

  lemma {:induction false} RestartsTrace(w: Snapshot, order: seq<Mapping>, m: Metadata, used: set<string>)
    returns (ms: seq<Metadata>)
    requires Grouped(w, order) && KnownRematches(w) && used <= w.rematches
    ensures ms != [] && ms[0] == m && Trace(w, order, used, ms, Restarts(w, order, m, used))
    decreases w.rematches - used
  {
    ms := [m];
    PassEnds(w, order, GetRules(w, m), m);
    var e := OnePass(w, order, GetRules(w, m), m);
    var r := Restarts(w, order, m, used);
    assert PassAt(w, order, m, e);
    if e.Restart? && e.a.name !in used && w.update(e.a, e.m).Some? {
      var n, used' := w.update(e.a, e.m).value, used + {e.a.name};
      var rest := RestartsTrace(w, order, n, used');
      ms := [m] + rest;
      assert Continues(w, order, m, e.a.name, n);
      TraceCons(w, order, used, m, e.a.name, rest, Restarts(w, order, n, used'), r);
    } else {
      assert r.rematched == [] && NamesIn([]) == {} && used + {} == used;
    }
  }

  lemma TraceCons(w: Snapshot, order: seq<Mapping>, used: set<string>, m: Metadata, name: string,
                  rest: seq<Metadata>, q: Answer, r: Answer)
    requires Grouped(w, order) && name !in used && Trace(w, order, used + {name}, rest, q)
    requires rest != [] && Continues(w, order, m, name, rest[0])
    requires r == q.(passes := q.passes + 1, rematched := [name] + q.rematched)
    ensures Trace(w, order, used, [m] + rest, r)
  {
    var ms := [m] + rest;
    assert used + NamesIn(r.rematched) == used + {name} + NamesIn(q.rematched);
    forall i | 0 <= i < |r.rematched|
      ensures Continues(w, order, ms[i], r.rematched[i], ms[i + 1])
      ensures r.rematched[i] !in used + NamesIn(r.rematched[..i])
    {
      if i > 0 {
        assert ms[i] == rest[i - 1] && ms[i + 1] == rest[i] && r.rematched[i] == q.rematched[i - 1];
        assert r.rematched[..i] == [name] + q.rematched[..i - 1];
      }
    }
    assert ms[|ms| - 1] == rest[|rest| - 1];
    assert Ends(w, order, rest[|rest| - 1], used + {name} + NamesIn(q.rematched), q);
  }

  /** Every match is such a run of passes from the flow's own metadata. */
  lemma MatchedTrace(w: Snapshot, order: seq<Mapping>, m: Metadata) returns (ms: seq<Metadata>)
    requires Grouped(w, order) && KnownRematches(w)
    ensures ms != [] && ms[0] == m && Trace(w, order, {}, ms, Matched(w, order, m))
  {
    ms := RestartsTrace(w, order, m, {});
  }

  /** An answer at the first pass by a rule is the target of a rule of the list the flow's
      sub-rule names, or of the rules if it names none, and that rule matched. */
  lemma FirstAnswer(w: Snapshot, order: seq<Mapping>, m: Metadata) returns (rules: seq<Rule>, i: nat)
    requires Grouped(w, order) && KnownRematches(w)
    ensures rules == if m.specialRules in w.subRules then w.subRules[m.specialRules] else w.rules
    ensures var r := Matched(w, order, m);
      && (r.why.ByRule? && r.passes == 1 ==>
            i < |rules| && r.adapter.Some? && Chooses(w, order, rules[i], At(rules, m, i), r.adapter.value))
      && (r.why.NoRule? && r.passes == 1 ==>
            forall j :: 0 <= j < |rules| ==> PassedOver(w, order, rules[j], At(rules, m, j)))
  {
    rules := if m.specialRules in w.subRules then w.subRules[m.specialRules] else w.rules;
    i := PassIs(w, order, rules, m);
    var ms := MatchedTrace(w, order, m);
  }
}
