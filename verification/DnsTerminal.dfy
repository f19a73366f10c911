/** `kernelDirectTerminal` of dns/middleware.go: the chain of aliases from the question to a
    name without one, with the least TTL on the way, and the answers collected there. */
module DnsTerminal {
  import opened DnsAlias
  import opened DnsDname

  const MAX_EXPANSIONS: nat := 64
  const MAX_TTL: TTL := 0xffff_ffff

  function Min(a: TTL, b: TTL): TTL { if a < b then a else b }

  // ------------------------------------------------------------------------ one alias step

  /** What the DNAME records say of a name. */
  datatype Choice = NoDname | Clash | Use(target: string, ttl: TTL)

  ghost predicate IsChoice(split: Split, dn: Aliases, name: string, c: Choice) {
    match c
    case NoDname => FindsNone(split, dn, name)
    case Clash => BestClash(split, dn, name)
    case Use(t, ttl) => Finds(split, dn, name, t, ttl) && !BestClash(split, dn, name)
  }

  datatype Hop = End | Dead | Go(next: string, ttl: TTL)

  /** CNAME and DNAME must agree where both apply. */
  function Combine(cn: Aliases, name: string, c: Choice): Hop {
    match c
    case Clash => Dead
    case NoDname => if name in cn then Go(cn[name].target, cn[name].ttl) else End
    case Use(t, ttl) =>
      if name !in cn then Go(t, ttl)
      else if cn[name].target != t then Dead
      else Go(t, Min(cn[name].ttl, ttl))
  }

  ghost predicate IsHop(split: Split, cn: Aliases, dn: Aliases, name: string, h: Hop) {
    exists c :: IsChoice(split, dn, name, c) && h == Combine(cn, name, c)
  }

  lemma ChoiceUnique(split: Split, dn: Aliases, name: string, c: Choice, d: Choice)
    requires IsChoice(split, dn, name, c) && IsChoice(split, dn, name, d)
    ensures c == d
  {
    if c.Use? && d.Use? {
      var o :| Highest(split, dn, name, o) && dn[o].ttl == c.ttl;
      var p :| Highest(split, dn, name, p) && dn[p].ttl == d.ttl;
    }
  }

  lemma HopUnique(split: Split, cn: Aliases, dn: Aliases, name: string, h: Hop, k: Hop)
    requires IsHop(split, cn, dn, name, h) && IsHop(split, cn, dn, name, k)
    ensures h == k
  {
    var c :| IsChoice(split, dn, name, c) && h == Combine(cn, name, c);
    var d :| IsChoice(split, dn, name, d) && k == Combine(cn, name, d);
    ChoiceUnique(split, dn, name, c, d);
  }

  /** One step as the code takes it, with the DNAME map ranged over in the given order. */
  function HopIn(split: Split, cn: Aliases, dn: Aliases, name: string, order: seq<string>): Hop {
    var st := ScanAll(split, dn, name, order);
    if st.Fail? then Dead else Combine(cn, name, if st.best < 0 then NoDname else Use(st.target, st.ttl))
  }

  lemma HopInIs(split: Split, cn: Aliases, dn: Aliases, name: string, order: seq<string>)
    requires Covers(order, dn)
    ensures ScanAll(split, dn, name, order).At? ==> IsHop(split, cn, dn, name, HopIn(split, cn, dn, name, order))
    ensures ScanAll(split, dn, name, order).Fail? ==> BestClash(split, dn, name) || LowerClash(split, dn, name)
  {
    var st := ScanAll(split, dn, name, order);
    ScanFinds(split, dn, name, order);
    if st.At? {
      assert IsChoice(split, dn, name, if st.best < 0 then NoDname else Use(st.target, st.ttl));
    }
  }

  /** It may give up on a name where shorter DNAME owners disagree. */
  method TakeHop(split: Split, cn: Aliases, dn: Aliases, name: string, order: seq<string>) returns (h: Hop)
    requires Covers(order, dn)
    ensures h == HopIn(split, cn, dn, name, order)
    ensures IsHop(split, cn, dn, name, h) || (h.Dead? && LowerClash(split, dn, name))
  {
    HopInIs(split, cn, dn, name, order);
    var st := ScanDnames(split, dn, name, order);
    if st.Fail? {
      if BestClash(split, dn, name) { assert IsChoice(split, dn, name, Clash) && Combine(cn, name, Clash) == Dead; }
      return Dead;
    }
    h := Combine(cn, name, if st.best < 0 then NoDname else Use(st.target, st.ttl));
  }

  // --------------------------------------------------------------------------- the chain

  ghost predicate Step(split: Split, cn: Aliases, dn: Aliases, p: seq<string>, ttls: seq<TTL>, i: int)
    requires |p| == |ttls| + 1 && 0 <= i < |ttls|
  {
    IsHop(split, cn, dn, p[i], Go(p[i + 1], ttls[i]))
  }

  predicate Distinct(p: seq<string>) { forall i, j :: 0 <= i < j < |p| ==> p[i] != p[j] }

  /** The names from the question on, without repetition, and the TTL of every step. */
  ghost predicate IsChain(split: Split, cn: Aliases, dn: Aliases, query: string, p: seq<string>, ttls: seq<TTL>) {
    && |p| == |ttls| + 1 && p[0] == query && Distinct(p)
    && forall i :: 0 <= i < |ttls| ==> Step(split, cn, dn, p, ttls, i)
  }

  ghost predicate Complete(split: Split, cn: Aliases, dn: Aliases, query: string, p: seq<string>, ttls: seq<TTL>) {
    IsChain(split, cn, dn, query, p, ttls) && |ttls| < MAX_EXPANSIONS && IsHop(split, cn, dn, p[|p| - 1], End)
  }

  function Least(ttls: seq<TTL>): TTL {
    if ttls == [] then MAX_TTL else Min(Least(ttls[..|ttls| - 1]), ttls[|ttls| - 1])
  }

  lemma {:induction false} LeastIsLeast(ttls: seq<TTL>)
    ensures forall i :: 0 <= i < |ttls| ==> Least(ttls) <= ttls[i]
    ensures ttls == [] || exists i :: 0 <= i < |ttls| && ttls[i] == Least(ttls)
  {
    if ttls != [] {
      var n := |ttls| - 1;
      LeastIsLeast(ttls[..n]);
      if n > 0 && Least(ttls) != ttls[n] {
        var i :| 0 <= i < n && ttls[..n][i] == Least(ttls[..n]);
        assert ttls[i] == Least(ttls);
      } else {
        assert ttls[n] == Least(ttls);
      }
    }
  }

  /** Two chains from the same question follow each other as far as both go. */
  lemma {:induction false} ChainsAgree(split: Split, cn: Aliases, dn: Aliases, query: string,
                                       p: seq<string>, ts: seq<TTL>, q: seq<string>, us: seq<TTL>, i: nat)
    requires IsChain(split, cn, dn, query, p, ts) && IsChain(split, cn, dn, query, q, us)
    requires i < |p| && i < |q|
    ensures p[i] == q[i] && (i > 0 ==> ts[i - 1] == us[i - 1])
    decreases i
  {
    if i > 0 {
      ChainsAgree(split, cn, dn, query, p, ts, q, us, i - 1);
      assert Step(split, cn, dn, p, ts, i - 1) && Step(split, cn, dn, q, us, i - 1);
      HopUnique(split, cn, dn, p[i - 1], Go(p[i], ts[i - 1]), Go(q[i], us[i - 1]));
    }
  }

  /** No chain is longer than a complete one. */
  lemma NotShorter(split: Split, cn: Aliases, dn: Aliases, query: string, p: seq<string>, ts: seq<TTL>, q: seq<string>,
                   us: seq<TTL>)
    requires IsChain(split, cn, dn, query, p, ts) && Complete(split, cn, dn, query, q, us)
    ensures |p| <= |q|
  {
    if |q| < |p| {
      ChainsAgree(split, cn, dn, query, p, ts, q, us, |q| - 1);
      assert Step(split, cn, dn, p, ts, |q| - 1);
      HopUnique(split, cn, dn, q[|q| - 1], End, Go(p[|q|], ts[|q| - 1]));
    }
  }

  lemma ExtendChain(split: Split, cn: Aliases, dn: Aliases, query: string, p: seq<string>, ts: seq<TTL>, next: string,
                    ttl: TTL)
    requires IsChain(split, cn, dn, query, p, ts) && IsHop(split, cn, dn, p[|p| - 1], Go(next, ttl)) && next !in p
    ensures IsChain(split, cn, dn, query, p + [next], ts + [ttl]) && Least(ts + [ttl]) == Min(Least(ts), ttl)
  {
    var q, us := p + [next], ts + [ttl];
    assert us[..|ts|] == ts;
    forall i | 0 <= i < |us| ensures Step(split, cn, dn, q, us, i) {
      if i < |ts| { assert Step(split, cn, dn, p, ts, i); }
    }
  }

  /** The answer the records determine: the end of the complete chain and its least TTL. */
  ghost predicate Resolves(split: Split, rs: seq<RR>, query: string, name: string, ttl: TTL) {
    && query != "" && Acceptable(ReadAll(rs))
    && exists cn, dn, p, ts :: Leads(split, rs, query, cn, dn, p, ts) && name == p[|p| - 1] && ttl == Least(ts)
  }

  ghost predicate Leads(split: Split, rs: seq<RR>, query: string, cn: Aliases, dn: Aliases, p: seq<string>,
                        ts: seq<TTL>) {
    Maps(ReadAll(rs), ByCname, cn) && Maps(ReadAll(rs), ByDname, dn) && Complete(split, cn, dn, query, p, ts)
  }

  // ---------------------------------------------------------------------------- the walk

  /** The walk from the chain p on, ranging over the DNAME map as `order` says at each name. */
  function Walk(split: Split, cn: Aliases, dn: Aliases, order: Ranging, p: seq<string>, ttl: TTL): Option<(string, TTL)>
    requires p != []
    decreases MAX_EXPANSIONS + 1 - |p|
  {
    if |p| > MAX_EXPANSIONS then None
    else
      var name := p[|p| - 1];
      match HopIn(split, cn, dn, name, order(dn, name))
      case End => Some((name, ttl))
      case Dead => None
      case Go(next, t) => if next in p then None else Walk(split, cn, dn, order, p + [next], Min(ttl, t))
  }

  method WalkChain(split: Split, cn: Aliases, dn: Aliases, order: Ranging, query: string)
    returns (r: Option<(string, TTL)>)
    requires Ranges(order)
    ensures r == Walk(split, cn, dn, order, [query], MAX_TTL)
  {
    var name, ttl := query, MAX_TTL;
    var seen := {query};
    ghost var p := [query];
    for expansion := 0 to MAX_EXPANSIONS
      invariant |p| == expansion + 1 && name == p[expansion] && forall x :: x in seen <==> x in p
      invariant Walk(split, cn, dn, order, p, ttl) == Walk(split, cn, dn, order, [query], MAX_TTL)
    {
      var h := TakeHop(split, cn, dn, name, order(dn, name));
      if h.End? { return Some((name, ttl)); }
      if h.Dead? || h.next in seen { return None; }
      seen := seen + {h.next};
      ttl := Min(ttl, h.ttl);
      name := h.next;
      p := p + [h.next];
    }
    r := None;
  }

  /** A walk that succeeds has followed a complete chain. */
  lemma {:induction false} WalkSound(split: Split, cn: Aliases, dn: Aliases, order: Ranging, query: string,
                                     p: seq<string>, ts: seq<TTL>) returns (q: seq<string>, us: seq<TTL>)
    requires Ranges(order) && IsChain(split, cn, dn, query, p, ts)
    ensures var r := Walk(split, cn, dn, order, p, Least(ts));
            r.Some? ==> Complete(split, cn, dn, query, q, us) && r.value == (q[|q| - 1], Least(us))
    decreases MAX_EXPANSIONS + 1 - |p|
  {
    q, us := p, ts;
    var name := p[|p| - 1];
    var h := HopIn(split, cn, dn, name, order(dn, name));
    if |p| <= MAX_EXPANSIONS && !h.Dead? {
      HopInIs(split, cn, dn, name, order(dn, name));
      if h.Go? && h.next !in p {
        ExtendChain(split, cn, dn, query, p, ts, h.next, h.ttl);
        q, us := WalkSound(split, cn, dn, order, query, p + [h.next], ts + [h.ttl]);
      }
    }
  }

  /** The scans at the names of the chain q from the k-th on all succeed. */
  ghost predicate Smooth(split: Split, dn: Aliases, order: Ranging, q: seq<string>, k: int) {
    forall i :: 0 <= i < |q| && k <= i ==> ScanAll(split, dn, q[i], order(dn, q[i])).At?
  }

  /** Where there is a complete chain the walk follows it, as long as the scans succeed. */
  lemma {:induction false} WalkFollows(split: Split, cn: Aliases, dn: Aliases, order: Ranging, query: string,
                                       p: seq<string>, ts: seq<TTL>, q: seq<string>, us: seq<TTL>)
    requires Ranges(order) && IsChain(split, cn, dn, query, p, ts) && Complete(split, cn, dn, query, q, us)
    ensures Walk(split, cn, dn, order, p, Least(ts))
         == if Smooth(split, dn, order, q, |p| - 1) then Some((q[|q| - 1], Least(us))) else None
    decreases MAX_EXPANSIONS + 1 - |p|
  {
    NotShorter(split, cn, dn, query, p, ts, q, us);
    var n := |p| - 1;
    ChainsAgree(split, cn, dn, query, p, ts, q, us, n);
    HopInIs(split, cn, dn, p[n], order(dn, p[n]));
    if ScanAll(split, dn, p[n], order(dn, p[n])).At? {
      var h := HopIn(split, cn, dn, p[n], order(dn, p[n]));
      if |q| == |p| {
        HopUnique(split, cn, dn, p[n], h, End);
        CompleteUnique(split, cn, dn, query, p, ts, q, us);
      } else {
        NextOnChain(split, cn, dn, query, p, ts, q, us, h);
        ExtendChain(split, cn, dn, query, p, ts, h.next, h.ttl);
        WalkFollows(split, cn, dn, order, query, p + [h.next], ts + [h.ttl], q, us);
        assert Smooth(split, dn, order, q, n) <==> Smooth(split, dn, order, q, n + 1);
      }
    }
  }

  lemma NextOnChain(split: Split, cn: Aliases, dn: Aliases, query: string,
                    p: seq<string>, ts: seq<TTL>, q: seq<string>, us: seq<TTL>, h: Hop)
    requires IsChain(split, cn, dn, query, p, ts) && IsChain(split, cn, dn, query, q, us) && |p| < |q|
    requires IsHop(split, cn, dn, p[|p| - 1], h)
    ensures h == Go(q[|p|], us[|p| - 1]) && h.next !in p
  {
    var n := |p| - 1;
    ChainsAgree(split, cn, dn, query, p, ts, q, us, n);
    assert Step(split, cn, dn, q, us, n);
    HopUnique(split, cn, dn, p[n], h, Go(q[n + 1], us[n]));
    forall i | 0 <= i < |p| ensures p[i] != h.next { ChainsAgree(split, cn, dn, query, p, ts, q, us, i); }
  }

  // ------------------------------------------------------------------- the whole function

  /** What the function returns when maps are ranged over as `order` says. */
  ghost predicate Outcome(split: Split, rs: seq<RR>, query: string, order: Ranging, r: Option<(string, TTL)>) {
    if query == "" || !Acceptable(ReadAll(rs)) then r.None?
    else exists cn, dn ::
      && Maps(ReadAll(rs), ByCname, cn) && Maps(ReadAll(rs), ByDname, dn)
      && r == Walk(split, cn, dn, order, [query], MAX_TTL)
  }

  /** The complete chain passes a name where shorter DNAME owners disagree. */
  ghost predicate OrderBound(split: Split, rs: seq<RR>, query: string) {
    exists cn, dn, p, ts, i :: Leads(split, rs, query, cn, dn, p, ts) && Unsettled(split, dn, p, i)
  }

  ghost predicate Unsettled(split: Split, dn: Aliases, p: seq<string>, i: int) {
    0 <= i < |p| && LowerClash(split, dn, p[i])
  }

  /** `kernelDirectTerminal`. A success is the answer the records determine. A failure means
      there is none, or that the chain to it passes a name where shorter DNAME owners
      disagree. */
  method Terminal(split: Split, question: string, rs: seq<RR>, order: Ranging) returns (r: Option<(string, TTL)>)
    requires Ranges(order)
    ensures Outcome(split, rs, Key(question), order, r)
    ensures r.Some? ==> Resolves(split, rs, Key(question), r.value.0, r.value.1)
    ensures r.None? ==> forall name, ttl ::
              Resolves(split, rs, Key(question), name, ttl) ==> OrderBound(split, rs, Key(question))
  {
    var query := Key(question);
    if query == "" { return None; }
    var ok, cn, dn := Collect(rs);
    if !ok { return None; }
    r := WalkChain(split, cn, dn, order, query);
    WalkDecides(split, rs, query, cn, dn, order);
  }

  lemma WalkDecides(split: Split, rs: seq<RR>, query: string, cn: Aliases, dn: Aliases, order: Ranging)
    requires Ranges(order) && query != "" && Acceptable(ReadAll(rs))
    requires Maps(ReadAll(rs), ByCname, cn) && Maps(ReadAll(rs), ByDname, dn)
    ensures var r := Walk(split, cn, dn, order, [query], MAX_TTL);
            && (r.Some? ==> Resolves(split, rs, query, r.value.0, r.value.1))
            && (r.None? ==> forall name, ttl :: Resolves(split, rs, query, name, ttl) ==> OrderBound(split, rs, query))
  {
    var r := Walk(split, cn, dn, order, [query], MAX_TTL);
    var q, us := WalkSound(split, cn, dn, order, query, [query], []);
    assert r.Some? ==> Leads(split, rs, query, cn, dn, q, us);
    forall name, ttl | r.None? && Resolves(split, rs, query, name, ttl) ensures OrderBound(split, rs, query) {
      var p, ts := ChainOf(split, rs, query, name, ttl, cn, dn);
      WalkFollows(split, cn, dn, order, query, [query], [], p, ts);
      var i :| 0 <= i < |p| && !ScanAll(split, dn, p[i], order(dn, p[i])).At?;
      HopInIs(split, cn, dn, p[i], order(dn, p[i]));
      ChainGoesOn(split, cn, dn, query, p, ts, i);
      assert Leads(split, rs, query, cn, dn, p, ts) && Unsettled(split, dn, p, i);
    }
  }

  lemma ChainOf(split: Split, rs: seq<RR>, query: string, name: string, ttl: TTL, cn: Aliases, dn: Aliases)
    returns (p: seq<string>, ts: seq<TTL>)
    requires Resolves(split, rs, query, name, ttl)
    requires Maps(ReadAll(rs), ByCname, cn) && Maps(ReadAll(rs), ByDname, dn)
    ensures Complete(split, cn, dn, query, p, ts) && name == p[|p| - 1] && ttl == Least(ts)
  {
    var c, d, q, us :| Leads(split, rs, query, c, d, q, us) && name == q[|q| - 1] && ttl == Least(us);
    MapsUnique(ReadAll(rs), ByCname, c, cn);
    MapsUnique(ReadAll(rs), ByDname, d, dn);
    p, ts := q, us;
  }

  // ------------------------------------------------------------ in every order, in some order

  ghost predicate AnswerExists(split: Split, rs: seq<RR>, query: string) {
    exists name, ttl :: Resolves(split, rs, query, name, ttl)
  }

  ghost predicate SucceedsInEveryOrder(split: Split, rs: seq<RR>, query: string) {
    forall order, r :: Ranges(order) && Outcome(split, rs, query, order, r) ==> r.Some?
  }

  ghost predicate SucceedsInSomeOrder(split: Split, rs: seq<RR>, query: string) {
    exists order, r :: Ranges(order) && Outcome(split, rs, query, order, r) && r.Some?
  }

  /** The function succeeds however the maps are ranged over if and only if the records determine
      an answer and the chain to it passes no name where shorter DNAME owners disagree. */
  lemma EveryOrderExactly(split: Split, rs: seq<RR>, query: string)
    ensures SucceedsInEveryOrder(split, rs, query) <==> AnswerExists(split, rs, query) && !OrderBound(split, rs, query)
  {
    if AnswerExists(split, rs, query) && !OrderBound(split, rs, query) {
      forall order, r | Ranges(order) && Outcome(split, rs, query, order, r) ensures r.Some? {
        var cn, dn :| Maps(ReadAll(rs), ByCname, cn) && Maps(ReadAll(rs), ByDname, dn)
                      && r == Walk(split, cn, dn, order, [query], MAX_TTL);
        WalkDecides(split, rs, query, cn, dn, order);
      }
    } else {
      SomeOrderFails(split, rs, query);
    }
  }

  lemma SomeOrderFails(split: Split, rs: seq<RR>, query: string)
    requires !AnswerExists(split, rs, query) || OrderBound(split, rs, query)
    ensures !SucceedsInEveryOrder(split, rs, query)
  {
    var order: Ranging := (d, x) => AnyOrder(d);
    if query == "" || !Acceptable(ReadAll(rs)) {
      assert Ranges(order) && Outcome(split, rs, query, order, None);
    } else {
      var cn := MapsExist(ReadAll(rs), ByCname);
      var dn := MapsExist(ReadAll(rs), ByDname);
      if OrderBound(split, rs, query) { order := OrderBoundFails(split, rs, query, cn, dn); }
      WalkDecides(split, rs, query, cn, dn, order);
      var r := Walk(split, cn, dn, order, [query], MAX_TTL);
      assert Outcome(split, rs, query, order, r) && r.None?;
    }
  }

  /** On an order-bound chain there is an order of the map, at some name of the chain, with which
      the walk fails. */
  lemma OrderBoundFails(split: Split, rs: seq<RR>, query: string, cn: Aliases, dn: Aliases) returns (order: Ranging)
    requires OrderBound(split, rs, query)
    requires Maps(ReadAll(rs), ByCname, cn) && Maps(ReadAll(rs), ByDname, dn)
    ensures Ranges(order) && Walk(split, cn, dn, order, [query], MAX_TTL).None?
  {
    var c, d, p, ts, i :| Leads(split, rs, query, c, d, p, ts) && Unsettled(split, d, p, i);
    MapsUnique(ReadAll(rs), ByCname, c, cn);
    MapsUnique(ReadAll(rs), ByDname, d, dn);
    order := FailsAt(split, cn, dn, query, p, ts, i);
  }

  lemma FailsAt(split: Split, cn: Aliases, dn: Aliases, query: string, p: seq<string>, ts: seq<TTL>, i: nat)
    returns (order: Ranging)
    requires Complete(split, cn, dn, query, p, ts) && i < |p| && LowerClash(split, dn, p[i])
    ensures Ranges(order) && ScanAll(split, dn, p[i], order(dn, p[i])).Fail?
    ensures Walk(split, cn, dn, order, [query], MAX_TTL).None?
  {
    ChainGoesOn(split, cn, dn, query, p, ts, i);
    var a, _ := TwoOrders(split, dn, p[i]);
    order := With(dn, p[i], a);
    WalkFollows(split, cn, dn, order, query, [query], [], p, ts);
    assert !Smooth(split, dn, order, p, 0);
  }

  /** Some order for every map, and the given one for this map at this name. */
  lemma With(dn: Aliases, name: string, a: seq<string>) returns (order: Ranging)
    requires Covers(a, dn)
    ensures Ranges(order) && order(dn, name) == a
  {
    order := (e, x) => if e == dn && x == name then a else AnyOrder(e);
  }

  ghost function AnyOrder(dn: Aliases): (order: seq<string>)
    ensures Covers(order, dn)
  {
    ListingExists(dn);
    var order :| Covers(order, dn);
    order
  }

  lemma ListingExists(dn: Aliases)
    ensures exists order :: Covers(order, dn)
  {
    var order := Listing(dn.Keys);
    assert Covers(order, dn);
  }

  /** It succeeds in some order if and only if the records determine an answer, and then in any
      order with that answer or not at all. */
  lemma SomeOrderExactly(split: Split, rs: seq<RR>, query: string)
    ensures SucceedsInSomeOrder(split, rs, query) <==> AnswerExists(split, rs, query)
  {
    if SucceedsInSomeOrder(split, rs, query) {
      var order, r :| Ranges(order) && Outcome(split, rs, query, order, r) && r.Some?;
      var cn, dn :| Maps(ReadAll(rs), ByCname, cn) && Maps(ReadAll(rs), ByDname, dn)
                    && r == Walk(split, cn, dn, order, [query], MAX_TTL);
      WalkDecides(split, rs, query, cn, dn, order);
    } else if AnswerExists(split, rs, query) {
      var name, ttl :| Resolves(split, rs, query, name, ttl);
      var cn := MapsExist(ReadAll(rs), ByCname);
      var dn := MapsExist(ReadAll(rs), ByDname);
      var p, ts := ChainOf(split, rs, query, name, ttl, cn, dn);
      var order := PassesAll(split, cn, dn, query, p, ts);
      assert Outcome(split, rs, query, order, Walk(split, cn, dn, order, [query], MAX_TTL));
    }
  }

  lemma PassesAll(split: Split, cn: Aliases, dn: Aliases, query: string, p: seq<string>, ts: seq<TTL>)
    returns (order: Ranging)
    requires Complete(split, cn, dn, query, p, ts)
    ensures Ranges(order) && Walk(split, cn, dn, order, [query], MAX_TTL) == Some((p[|p| - 1], Least(ts)))
  {
    order := Best(split);
    forall i | 0 <= i < |p| ensures ScanAll(split, dn, p[i], order(dn, p[i])).At? {
      ChainGoesOn(split, cn, dn, query, p, ts, i);
      PassesSomewhere(split, dn, p[i]);
    }
    WalkFollows(split, cn, dn, order, query, [query], [], p, ts);
  }

  lemma Best(split: Split) returns (order: Ranging)
    ensures Ranges(order) && forall d, x :: order(d, x) == BestOrder(split, d, x)
  {
    order := (d, x) => BestOrder(split, d, x);
  }

  ghost function BestOrder(split: Split, dn: Aliases, name: string): (order: seq<string>)
    ensures Covers(order, dn)
  {
    if exists o :: Covers(o, dn) && ScanAll(split, dn, name, o).At? then
      var o :| Covers(o, dn) && ScanAll(split, dn, name, o).At?; o
    else AnyOrder(dn)
  }

  lemma PassesSomewhere(split: Split, dn: Aliases, name: string)
    requires !BestClash(split, dn, name)
    ensures exists o :: Covers(o, dn) && ScanAll(split, dn, name, o).At?
  {
    if LowerClash(split, dn, name) {
      var _, b := TwoOrders(split, dn, name);
    } else {
      HopInIs(split, map[], dn, name, AnyOrder(dn));
    }
  }

  lemma ChainGoesOn(split: Split, cn: Aliases, dn: Aliases, query: string, p: seq<string>, ts: seq<TTL>, i: nat)
    requires Complete(split, cn, dn, query, p, ts) && i < |p|
    ensures !BestClash(split, dn, p[i])
  {
    if i < |ts| {
      assert Step(split, cn, dn, p, ts, i);
      GoesOn(split, cn, dn, p[i], Go(p[i + 1], ts[i]));
    } else {
      GoesOn(split, cn, dn, p[i], End);
    }
  }

  lemma GoesOn(split: Split, cn: Aliases, dn: Aliases, name: string, h: Hop)
    requires IsHop(split, cn, dn, name, h) && !h.Dead?
    ensures !BestClash(split, dn, name)
  {
    var c :| IsChoice(split, dn, name, c) && h == Combine(cn, name, c);
  }

  /** Three DNAME records, two of them for owners "com." and "com..", which are two keys with the
      same label: asked for "b.a.com.", the function finds "b.z" in one order and fails in another. */
  lemma OrderCanMatter(split: Split)
    requires split("com") == split("com.") == ["com"] && split("a.com") == ["a", "com"]
    requires split("b.a.com") == ["b", "a", "com"] && split("x") == ["x"] && split("y") == ["y"] && split("z") == ["z"]
    requires split("b.z") == ["b", "z"]
    ensures var rs := [DNAME("com.", "x.", 9, true), DNAME("com..", "y.", 9, true), DNAME("a.com.", "z.", 9, true)];
      && Resolves(split, rs, Key("b.a.com."), "b.z", 9)
      && SucceedsInSomeOrder(split, rs, Key("b.a.com.")) && !SucceedsInEveryOrder(split, rs, Key("b.a.com."))
  {
    var rs := [DNAME("com.", "x.", 9, true), DNAME("com..", "y.", 9, true), DNAME("a.com.", "z.", 9, true)];
    var a, b, c := Rec(ByDname, "com", "x", 9), Rec(ByDname, "com.", "y", 9), Rec(ByDname, "a.com", "z", 9);
    OwnerKeys();
    LongKeys();
    TargetKeys();
    assert ReadAll(rs) == [a, b, c];
    TwoScans(split);
    NothingAtGoal(split);
    ThreeLead(split, rs, Key("b.a.com."), "b.z", a, b, c, 2);
    BothOutcomes(split, rs, Key("b.a.com."), map[], ThreeOwners(a, b, c), [Key("b.a.com."), "b.z"], [9], "b.z", 9);
  }

  /** Three DNAME records for different owners, and a name one hop from a name without an alias. */
  lemma ThreeLead(split: Split, rs: seq<RR>, query: string, goal: string, a: Rec, b: Rec, c: Rec, best: nat)
    requires ReadAll(rs) == [a, b, c] && query != "" && query != goal && a.Rec? && b.Rec? && c.Rec?
    requires a.sort == b.sort == c.sort == ByDname && a.owner != b.owner && a.owner != c.owner && b.owner != c.owner
    requires var dn := ThreeOwners(a, b, c);
      ScanAll(split, dn, query, [c.owner, a.owner, b.owner]) == At(best, goal, c.ttl) && FindsNone(split, dn, goal)
    ensures Acceptable(ReadAll(rs)) && Leads(split, rs, query, map[], ThreeOwners(a, b, c), [query, goal], [c.ttl])
    ensures Least([c.ttl]) == c.ttl
  {
    var dn := ThreeOwners(a, b, c);
    ThreeMaps(a, b, c);
    HopInIs(split, map[], dn, query, [c.owner, a.owner, b.owner]);
    OneHop(split, dn, query, goal, c.ttl);
  }

  lemma BothOutcomes(split: Split, rs: seq<RR>, query: string, cn: Aliases, dn: Aliases, p: seq<string>, ts: seq<TTL>,
                     name: string, ttl: TTL)
    requires query != "" && Acceptable(ReadAll(rs)) && Leads(split, rs, query, cn, dn, p, ts)
    requires Unsettled(split, dn, p, 0) && name == p[|p| - 1] && ttl == Least(ts)
    ensures Resolves(split, rs, query, name, ttl)
    ensures SucceedsInSomeOrder(split, rs, query) && !SucceedsInEveryOrder(split, rs, query)
  {
    assert OrderBound(split, rs, query);
    assert Resolves(split, rs, query, name, ttl);
    assert AnswerExists(split, rs, query);
    SomeOrderFails(split, rs, query);
    SomeOrderExactly(split, rs, query);
  }

  function ThreeOwners(a: Rec, b: Rec, c: Rec): Aliases
    requires a.Rec? && b.Rec? && c.Rec?
  {
    map[a.owner := Alias(a.target, a.ttl), b.owner := Alias(b.target, b.ttl), c.owner := Alias(c.target, c.ttl)]
  }

  lemma ThreeMaps(a: Rec, b: Rec, c: Rec)
    requires a.Rec? && b.Rec? && c.Rec? && a.sort == b.sort == c.sort == ByDname
    requires a.owner != b.owner && a.owner != c.owner && b.owner != c.owner
    ensures Acceptable([a, b, c]) && Maps([a, b, c], ByDname, ThreeOwners(a, b, c)) && Maps([a, b, c], ByCname, map[])
    ensures Covers([c.owner, a.owner, b.owner], ThreeOwners(a, b, c))
  {
    var dn := ThreeOwners(a, b, c);
    forall o | o in dn ensures Attained([a, b, c], ByDname, dn, o) {
      var r := if o == a.owner then a else if o == b.owner then b else c;
      assert r in [a, b, c] && From(r, ByDname, o);
    }
    assert [a, b, c][..2] == [a, b] && [a, b][..1] == [a] && [a][..0] == [];
    assert CountAliases([a]) == 1 && CountAliases([a, b]) == 2 && CountAliases([a, b, c]) == 3;
  }

  lemma OneHop(split: Split, dn: Aliases, query: string, goal: string, ttl: TTL)
    requires query != goal && IsHop(split, map[], dn, query, Go(goal, ttl)) && FindsNone(split, dn, goal)
    ensures Complete(split, map[], dn, query, [query, goal], [ttl]) && Least([ttl]) == ttl
  {
    assert Step(split, map[], dn, [query, goal], [ttl], 0);
    assert IsChoice(split, dn, goal, NoDname);
    assert [ttl][..0] == [];
  }

  lemma NothingAtGoal(split: Split)
    requires split("com") == split("com.") == ["com"] && split("a.com") == ["a", "com"] && split("b.z") == ["b", "z"]
    ensures FindsNone(split, map["com" := Alias("x", 9), "com." := Alias("y", 9), "a.com" := Alias("z", 9)], "b.z")
  {
    assert ["b", "z"][1..] == ["z"] && "z" != "com";
  }

  lemma {:induction false} LowerIs(s: string)
    requires forall i :: 0 <= i < |s| ==> !('A' <= s[i] <= 'Z')
    ensures Lower(s) == s
  {
    if s != [] { LowerIs(s[1..]); }
  }

  lemma KeyOf(s: string, dotted: string)
    requires (forall i :: 0 <= i < |s| ==> !('A' <= s[i] <= 'Z')) && dotted == s + "."
    ensures Key(dotted) == s
  {
    assert dotted[..|dotted| - 1] == s;
    LowerIs(s);
  }

  lemma OwnerKeys()
    ensures Key("com.") == "com" && Key("com..") == "com."
  {
    KeyOf("com", "com.");
    KeyOf("com.", "com..");
  }

  lemma LongKeys()
    ensures Key("a.com.") == "a.com" && Key("b.a.com.") == "b.a.com"
  {
    KeyOf("a.com", "a.com.");
    KeyOf("b.a.com", "b.a.com.");
  }

  lemma TargetKeys()
    ensures Key("x.") == "x" && Key("y.") == "y" && Key("z.") == "z"
  {
    KeyOf("x", "x.");
    KeyOf("y", "y.");
    KeyOf("z", "z.");
  }

  /** Owners with different labels never disagree, so then `Terminal` succeeds exactly when
      the records determine an answer. */
  lemma DifferentOwnersAgree(split: Split, rs: seq<RR>, query: string)
    requires forall dn, o, p :: Maps(ReadAll(rs), ByDname, dn) && o in dn && p in dn && split(o) == split(p) ==> o == p
    ensures !OrderBound(split, rs, query)
  {
    if OrderBound(split, rs, query) {
      var cn, dn, p, ts, i :| Leads(split, rs, query, cn, dn, p, ts) && Unsettled(split, dn, p, i);
      NoClash(split, dn, p[i]);
    }
  }

  lemma NoClash(split: Split, dn: Aliases, name: string)
    requires forall o, p :: o in dn && p in dn && split(o) == split(p) ==> o == p
    ensures !LowerClash(split, dn, name)
  {
    forall o, p ensures !Clashing(split, dn, name, o, p) {
      SameLabels(split, dn, name, o, p);
    }
  }

  lemma SameLabels(split: Split, dn: Aliases, name: string, o: string, p: string)
    ensures Clashing(split, dn, name, o, p) ==> o in dn && p in dn && o != p && split(o) == split(p)
  {
  }

  /** There is at most one answer. */
  lemma ResolvesUnique(split: Split, rs: seq<RR>, query: string, a: string, s: TTL, b: string, t: TTL)
    requires Resolves(split, rs, query, a, s) && Resolves(split, rs, query, b, t)
    ensures a == b && s == t
  {
    var cn, dn, p, ts :| Leads(split, rs, query, cn, dn, p, ts) && a == p[|p| - 1] && s == Least(ts);
    var cn', dn', q, us :| Leads(split, rs, query, cn', dn', q, us) && b == q[|q| - 1] && t == Least(us);
    MapsUnique(ReadAll(rs), ByCname, cn, cn');
    MapsUnique(ReadAll(rs), ByDname, dn, dn');
    CompleteUnique(split, cn, dn, query, p, ts, q, us);
  }

  lemma CompleteUnique(split: Split, cn: Aliases, dn: Aliases, query: string, p: seq<string>, ts: seq<TTL>,
                       q: seq<string>, us: seq<TTL>)
    requires Complete(split, cn, dn, query, p, ts) && Complete(split, cn, dn, query, q, us)
    ensures p == q && ts == us
  {
    NotShorter(split, cn, dn, query, p, ts, q, us);
    NotShorter(split, cn, dn, query, q, us, p, ts);
    forall i | 0 <= i < |p| ensures p[i] == q[i] { ChainsAgree(split, cn, dn, query, p, ts, q, us, i); }
    forall i | 0 <= i < |ts| ensures ts[i] == us[i] { ChainsAgree(split, cn, dn, query, p, ts, q, us, i + 1); }
  }

  /** The answer does not depend on the order of the records. */
  lemma ResolvesPermutes(split: Split, rs: seq<RR>, qs: seq<RR>, query: string, name: string, ttl: TTL)
    requires multiset(rs) == multiset(qs) && Resolves(split, rs, query, name, ttl)
    ensures Resolves(split, qs, query, name, ttl)
  {
    ReadPermutes(rs, qs);
    RecordsPermute(ReadAll(rs), ReadAll(qs));
    var cn, dn, p, ts :| Leads(split, rs, query, cn, dn, p, ts) && name == p[|p| - 1] && ttl == Least(ts);
    assert Leads(split, qs, query, cn, dn, p, ts);
  }

  lemma {:induction false} ReadPermutes(rs: seq<RR>, qs: seq<RR>)
    requires multiset(rs) == multiset(qs)
    ensures multiset(ReadAll(rs)) == multiset(ReadAll(qs))
    decreases |rs|
  {
    if rs == [] {
      assert |multiset(qs)| == 0;
    } else {
      assert rs[0] in multiset(qs);
      var i :| 0 <= i < |qs| && qs[i] == rs[0];
      var os := ReadWithout(rs, 0);
      var ps := ReadWithout(qs, i);
      ReadPermutes(os, ps);
    }
  }

  lemma ReadWithout(qs: seq<RR>, i: nat) returns (ps: seq<RR>)
    requires i < |qs|
    ensures |ps| == |qs| - 1
    ensures multiset(ps) == multiset(qs) - multiset{qs[i]}
    ensures multiset(ReadAll(qs)) == multiset(ReadAll(ps)) + multiset{Read(qs[i])}
  {
    ps := qs[..i] + qs[i + 1..];
    assert qs == qs[..i] + [qs[i]] + qs[i + 1..];
    assert ReadAll(qs) == ReadAll(qs)[..i] + [Read(qs[i])] + ReadAll(qs)[i + 1..];
    assert ReadAll(ps) == ReadAll(qs)[..i] + ReadAll(qs)[i + 1..];
  }
}
