/** Which DNAME record rewrites a name (dns/middleware.go): the one whose owner has the
    most labels. The original ranges over a map of DNAME records, so the scan is studied
    for every order. */
module DnsDname {
  import opened DnsAlias

  type Split = string -> seq<string>

  function Join(labels: seq<string>): string {
    if labels == [] then "" else if |labels| == 1 then labels[0] else labels[0] + "." + Join(labels[1..])
  }

  /** `kernelDirectDNAMEAlias`: the owner is a proper suffix of the name, and is replaced. */
  function Substitute(split: Split, name: string, owner: string, target: string): Option<string> {
    var nl, ol := split(name), split(owner);
    if |ol| == 0 || |nl| <= |ol| || nl[|nl| - |ol|..] != ol then None
    else Some(Join(nl[..|nl| - |ol|] + split(target)))
  }

  function Sub(split: Split, dn: Aliases, name: string, o: string): Option<string> {
    if o in dn then Substitute(split, name, o, dn[o].target) else None
  }

  function Rank(split: Split, o: string): nat { |split(o)| }

  // --------------------------------------------------------------- the scan, in some order

  datatype Scan = Fail | At(best: int, target: string, ttl: TTL)

  function Visit(split: Split, dn: Aliases, name: string, st: Scan, o: string): Scan {
    if st.Fail? || Sub(split, dn, name, o).None? then st
    else
      var t, k := Sub(split, dn, name, o).value, Rank(split, o);
      if k > st.best then At(k, t, dn[o].ttl)
      else if k == st.best then
        if t != st.target then Fail else At(k, t, if dn[o].ttl < st.ttl then dn[o].ttl else st.ttl)
      else st
  }

  function ScanAll(split: Split, dn: Aliases, name: string, order: seq<string>): Scan {
    if order == [] then At(-1, "", 0)
    else Visit(split, dn, name, ScanAll(split, dn, name, order[..|order| - 1]), order[|order| - 1])
  }

  predicate NoDup(l: seq<string>) { forall i, j :: 0 <= i < j < |l| ==> l[i] != l[j] }

  /** The order lists every owner, once. */
  ghost predicate Covers(order: seq<string>, dn: Aliases) {
    NoDup(order) && forall o :: o in dn <==> o in order
  }

  /** The order in which a map is ranged over when the chain stands at a name. */
  type Ranging = (Aliases, string) -> seq<string>

  ghost predicate Ranges(order: Ranging) { forall dn, x :: Covers(order(dn, x), dn) }

  // ------------------------------------------------------------------ what it should find

  predicate Applies(split: Split, dn: Aliases, name: string, o: string) { Sub(split, dn, name, o).Some? }

  /** Two records for owners of equal length that rewrite the name differently. */
  predicate Clashing(split: Split, dn: Aliases, name: string, o: string, p: string) {
    && Applies(split, dn, name, o) && Applies(split, dn, name, p)
    && Rank(split, o) == Rank(split, p) && Sub(split, dn, name, o) != Sub(split, dn, name, p)
  }

  predicate Higher(split: Split, dn: Aliases, name: string, o: string, q: string) {
    Applies(split, dn, name, q) && Rank(split, q) > Rank(split, o)
  }

  ghost predicate Highest(split: Split, dn: Aliases, name: string, o: string) {
    Applies(split, dn, name, o) && forall q :: !Higher(split, dn, name, o, q)
  }

  /** The longest owners themselves disagree. */
  ghost predicate BestClash(split: Split, dn: Aliases, name: string) {
    exists o, p :: Clashing(split, dn, name, o, p) && Highest(split, dn, name, o)
  }

  /** Shorter owners disagree, which should not matter. */
  ghost predicate LowerClash(split: Split, dn: Aliases, name: string) {
    exists o, p, q :: Clashing(split, dn, name, o, p) && Higher(split, dn, name, o, q)
  }

  /** The longest applicable owner rewrites the name to t, and ttl is the least TTL among
      those of that length. */
  ghost predicate Finds(split: Split, dn: Aliases, name: string, t: string, ttl: TTL) {
    && (exists o :: Highest(split, dn, name, o) && dn[o].ttl == ttl)
    && (forall o :: Highest(split, dn, name, o) ==> Sub(split, dn, name, o) == Some(t) && ttl <= dn[o].ttl)
  }

  ghost predicate FindsNone(split: Split, dn: Aliases, name: string) {
    forall o :: !Applies(split, dn, name, o)
  }

  // ----------------------------------------------------------------------- what it finds

  /** What the scan knows of the owners visited. */
  ghost predicate Knows(split: Split, dn: Aliases, name: string, order: seq<string>, st: Scan) {
    match st
    case Fail => exists o, p :: Clashing(split, dn, name, o, p)
    case At(best, t, ttl) =>
      if best < 0 then best == -1 && t == "" && ttl == 0 && forall o :: o in order ==> !Applies(split, dn, name, o)
      else
        && (forall o :: o in order && Applies(split, dn, name, o) ==> Below(split, dn, name, o, st))
        && (exists o :: o in order && Applies(split, dn, name, o) && Rank(split, o) == best && dn[o].ttl == ttl)
  }

  predicate Below(split: Split, dn: Aliases, name: string, o: string, st: Scan)
    requires st.At? && Applies(split, dn, name, o)
  {
    && Rank(split, o) <= st.best
    && (Rank(split, o) == st.best ==> Sub(split, dn, name, o).value == st.target && st.ttl <= dn[o].ttl)
  }

  lemma KnowsStep(split: Split, dn: Aliases, name: string, order: seq<string>, st: Scan, x: string)
    requires Knows(split, dn, name, order, st)
    ensures Knows(split, dn, name, order + [x], Visit(split, dn, name, st, x))
  {
    var st' := Visit(split, dn, name, st, x);
    if st.At? && st.best >= 0 {
      var o :| o in order && Applies(split, dn, name, o) && Rank(split, o) == st.best && dn[o].ttl == st.ttl;
      assert o in order + [x];
      if st'.Fail? { assert Clashing(split, dn, name, o, x); }
    }
    if st'.At? {
      assert x in order + [x];
      forall o | o in order + [x] && Applies(split, dn, name, o)
        ensures st'.best >= 0 && Below(split, dn, name, o, st')
      {
        if o in order && st.best >= 0 { assert Below(split, dn, name, o, st); }
      }
    }
  }

  lemma {:induction false} ScanKnows(split: Split, dn: Aliases, name: string, order: seq<string>)
    ensures Knows(split, dn, name, order, ScanAll(split, dn, name, order))
  {
    if order != [] {
      var n := |order| - 1;
      ScanKnows(split, dn, name, order[..n]);
      KnowsStep(split, dn, name, order[..n], ScanAll(split, dn, name, order[..n]), order[n]);
      assert order[..n] + [order[n]] == order;
    }
  }

  /** In every order: an answer is the right one, a failure means a clash somewhere, and a
      clash of the longest owners is always a failure. */
  lemma ScanFinds(split: Split, dn: Aliases, name: string, order: seq<string>)
    requires Covers(order, dn)
    ensures var st := ScanAll(split, dn, name, order);
            && (st.Fail? ==> BestClash(split, dn, name) || LowerClash(split, dn, name))
            && (st.At? && st.best < 0 ==> FindsNone(split, dn, name) && st == At(-1, "", 0))
            && (st.At? && st.best >= 0 ==> Finds(split, dn, name, st.target, st.ttl))
            && (st.At? ==> !BestClash(split, dn, name))
  {
    var st := ScanAll(split, dn, name, order);
    ScanKnows(split, dn, name, order);
    if st.Fail? {
      var o, p :| Clashing(split, dn, name, o, p);
      if !Highest(split, dn, name, o) {
        var q :| Higher(split, dn, name, o, q);
        assert LowerClash(split, dn, name);
      }
    } else if st.best >= 0 {
      AtIsRight(split, dn, name, order, st);
    }
  }

  lemma AtIsRight(split: Split, dn: Aliases, name: string, order: seq<string>, st: Scan)
    requires Covers(order, dn) && st.At? && st.best >= 0 && Knows(split, dn, name, order, st)
    ensures Finds(split, dn, name, st.target, st.ttl) && !BestClash(split, dn, name)
  {
    var w :| w in order && Applies(split, dn, name, w) && Rank(split, w) == st.best && dn[w].ttl == st.ttl;
    forall o | Applies(split, dn, name, o) ensures Below(split, dn, name, o, st) { assert o in order; }
    assert Highest(split, dn, name, w);
    forall o | Highest(split, dn, name, o)
      ensures Rank(split, o) == st.best && Sub(split, dn, name, o) == Some(st.target) && st.ttl <= dn[o].ttl
    {
      assert !Higher(split, dn, name, o, w);
    }
    forall o, p | Clashing(split, dn, name, o, p) ensures !Highest(split, dn, name, o) {
      assert Below(split, dn, name, p, st);
    }
  }

  // ------------------------------------------------------------- when the order matters

  lemma {:induction false} Listing(s: set<string>) returns (order: seq<string>)
    ensures NoDup(order) && forall o :: o in s <==> o in order
    decreases s
  {
    order := [];
    if s != {} {
      var x :| x in s;
      var rest := Listing(s - {x});
      order := [x] + rest;
    }
  }

  lemma {:induction false} FailStays(split: Split, dn: Aliases, name: string, a: seq<string>, b: seq<string>)
    requires ScanAll(split, dn, name, a).Fail?
    ensures ScanAll(split, dn, name, a + b).Fail?
    decreases |b|
  {
    if b == [] {
      assert a + b == a;
    } else {
      FailStays(split, dn, name, a, b[..|b| - 1]);
      assert (a + b)[..|a + b| - 1] == a + b[..|b| - 1];
    }
  }

  lemma PairFirstFails(split: Split, dn: Aliases, name: string, o: string, p: string, rest: seq<string>)
    requires Clashing(split, dn, name, o, p)
    ensures ScanAll(split, dn, name, [o, p] + rest).Fail?
  {
    assert [o, p][..1] == [o] && [o][..0] == [];
    assert ScanAll(split, dn, name, [o]) == At(Rank(split, o), Sub(split, dn, name, o).value, dn[o].ttl);
    assert ScanAll(split, dn, name, [o, p]).Fail?;
    FailStays(split, dn, name, [o, p], rest);
  }

  /** With a longest owner first, shorter ones are never compared. */
  lemma {:induction false} HighestFirst(split: Split, dn: Aliases, name: string, q: string, rest: seq<string>)
    requires Highest(split, dn, name, q) && !BestClash(split, dn, name)
    ensures var st := ScanAll(split, dn, name, [q] + rest);
            st.At? && st.best == Rank(split, q) && st.target == Sub(split, dn, name, q).value
    decreases |rest|
  {
    if rest == [] {
      assert [q] + rest == [q] && [q][..0] == [];
    } else {
      var n := |rest| - 1;
      HighestFirst(split, dn, name, q, rest[..n]);
      assert ([q] + rest)[..|rest|] == [q] + rest[..n];
      var x := rest[n];
      assert !Higher(split, dn, name, q, x);
      assert !Clashing(split, dn, name, q, x);
    }
  }

  lemma {:induction false} SomeHighest(split: Split, dn: Aliases, name: string, o: string, order: seq<string>)
    returns (q: string)
    requires Applies(split, dn, name, o) && Covers(order, dn)
    ensures Highest(split, dn, name, q) && Rank(split, q) >= Rank(split, o)
  {
    q := o;
    for i := 0 to |order|
      invariant Applies(split, dn, name, q) && Rank(split, q) >= Rank(split, o)
      invariant forall j :: 0 <= j < i ==> !Higher(split, dn, name, q, order[j])
    {
      if Higher(split, dn, name, q, order[i]) { q := order[i]; }
    }
    forall x ensures !Higher(split, dn, name, q, x) {
      if Applies(split, dn, name, x) { assert x in order; }
    }
  }

  ghost predicate SameInEveryOrder(split: Split, dn: Aliases, name: string) {
    forall a, b :: Covers(a, dn) && Covers(b, dn) ==> ScanAll(split, dn, name, a) == ScanAll(split, dn, name, b)
  }

  /** The outcome is the same for every order of the map if and only if it is not the case
      that shorter owners disagree while the longest agree. */
  lemma OrderMattersExactly(split: Split, dn: Aliases, name: string)
    ensures SameInEveryOrder(split, dn, name) <==> !LowerClash(split, dn, name) || BestClash(split, dn, name)
  {
    if !LowerClash(split, dn, name) || BestClash(split, dn, name) {
      forall a, b | Covers(a, dn) && Covers(b, dn) ensures ScanAll(split, dn, name, a) == ScanAll(split, dn, name, b) {
        SameOutcome(split, dn, name, a, b);
      }
    } else {
      var a, b := TwoOrders(split, dn, name);
    }
  }

  /** Owners "com" and "com.", which are two keys with the same label, and a longer owner: one
      order fails on the first two, another never looks at them. */
  lemma TwoScans(split: Split)
    requires split("com") == split("com.") == ["com"] && split("a.com") == ["a", "com"]
    requires split("b.a.com") == ["b", "a", "com"] && split("x") == ["x"] && split("y") == ["y"] && split("z") == ["z"]
    ensures var dn := map["com" := Alias("x", 9), "com." := Alias("y", 9), "a.com" := Alias("z", 9)];
      && ScanAll(split, dn, "b.a.com", ["com", "com.", "a.com"]) == Fail
      && ScanAll(split, dn, "b.a.com", ["a.com", "com", "com."]) == At(2, "b.z", 9)
      && LowerClash(split, dn, "b.a.com")
  {
    var dn: Aliases := map["com" := Alias("x", 9), "com." := Alias("y", 9), "a.com" := Alias("z", 9)];
    var name, nl := "b.a.com", ["b", "a", "com"];
    assert nl[2..] == ["com"] && nl[1..] == ["a", "com"];
    assert nl[..2] + ["x"] == ["b", "a", "x"] && nl[..2] + ["y"] == ["b", "a", "y"] && nl[..1] + ["z"] == ["b", "z"];
    assert Sub(split, dn, name, "com") == Some(Join(["b", "a", "x"]));
    assert Sub(split, dn, name, "com.") == Some(Join(["b", "a", "y"]));
    assert Sub(split, dn, name, "a.com") == Some(Join(["b", "z"]));
    JoinLast("b", "a", "x", "y");
    assert Join(["b", "z"]) == "b.z";
    var a, b := ["com", "com.", "a.com"], ["a.com", "com", "com."];
    Prefixes(split, dn, name, a);
    Prefixes(split, dn, name, b);
    assert Clashing(split, dn, name, "com", "com.") && Higher(split, dn, name, "com", "a.com");
  }

  lemma JoinLast(b: string, a: string, x: string, y: string)
    requires x != y && |x| == |y|
    ensures Join([b, a, x]) != Join([b, a, y])
  {
    assert [b, a, x][1..] == [a, x] && [a, x][1..] == [x] && [b, a, y][1..] == [a, y] && [a, y][1..] == [y];
    var p := b + "." + a + ".";
    assert Join([a, x]) == a + "." + x && Join([a, y]) == a + "." + y;
    assert b + "." + (a + "." + x) == p + x && b + "." + (a + "." + y) == p + y;
    assert (p + x)[|p|..] == x && (p + y)[|p|..] == y;
  }

  lemma Prefixes(split: Split, dn: Aliases, name: string, l: seq<string>)
    requires |l| == 3
    ensures ScanAll(split, dn, name, l) ==
      Visit(split, dn, name, Visit(split, dn, name, Visit(split, dn, name, At(-1, "", 0), l[0]), l[1]), l[2])
  {
    assert l[..2][..1] == [l[0]];
    assert ScanAll(split, dn, name, [l[0]]) == Visit(split, dn, name, At(-1, "", 0), l[0]);
    assert ScanAll(split, dn, name, l[..2]) == Visit(split, dn, name, ScanAll(split, dn, name, [l[0]]), l[1]);
  }

  lemma TwoOrders(split: Split, dn: Aliases, name: string) returns (a: seq<string>, b: seq<string>)
    requires LowerClash(split, dn, name) && !BestClash(split, dn, name)
    ensures Covers(a, dn) && Covers(b, dn)
    ensures ScanAll(split, dn, name, a).Fail? && ScanAll(split, dn, name, b).At?
  {
    var o, p, q0 :| Clashing(split, dn, name, o, p) && Higher(split, dn, name, o, q0);
    var all := Listing(dn.Keys);
    var q := SomeHighest(split, dn, name, q0, all);
    a := FailingOrder(split, dn, name, o, p);
    b := PassingOrder(split, dn, name, q);
  }

  lemma FailingOrder(split: Split, dn: Aliases, name: string, o: string, p: string) returns (order: seq<string>)
    requires Clashing(split, dn, name, o, p)
    ensures Covers(order, dn) && ScanAll(split, dn, name, order).Fail?
  {
    var rest := Listing(dn.Keys - {o, p});
    order := [o, p] + rest;
    PairFirstFails(split, dn, name, o, p, rest);
    PairCovers(dn, o, p, rest);
  }

  lemma PassingOrder(split: Split, dn: Aliases, name: string, q: string) returns (order: seq<string>)
    requires Highest(split, dn, name, q) && !BestClash(split, dn, name)
    ensures Covers(order, dn) && ScanAll(split, dn, name, order).At?
  {
    var rest := Listing(dn.Keys - {q});
    order := [q] + rest;
    HighestFirst(split, dn, name, q, rest);
    OneCovers(dn, q, rest);
  }

  lemma PairCovers(dn: Aliases, o: string, p: string, rest: seq<string>)
    requires o in dn && p in dn && o != p && NoDup(rest) && forall x :: x in dn.Keys - {o, p} <==> x in rest
    ensures Covers([o, p] + rest, dn)
  {
    NoDupCons(p, rest);
    NoDupCons(o, [p] + rest);
    assert [o, p] + rest == [o] + ([p] + rest);
  }

  lemma NoDupCons(x: string, rest: seq<string>)
    requires NoDup(rest) && x !in rest
    ensures NoDup([x] + rest)
  {
    var l := [x] + rest;
    forall i, j | 0 <= i < j < |l| ensures l[i] != l[j] {
      assert l[j] == rest[j - 1] && (i > 0 ==> l[i] == rest[i - 1]);
    }
  }

  lemma OneCovers(dn: Aliases, q: string, rest: seq<string>)
    requires q in dn && NoDup(rest) && forall x :: x in dn.Keys - {q} <==> x in rest
    ensures Covers([q] + rest, dn)
  {
    NoDupCons(q, rest);
  }

  lemma SameOutcome(split: Split, dn: Aliases, name: string, a: seq<string>, b: seq<string>)
    requires Covers(a, dn) && Covers(b, dn) && (!LowerClash(split, dn, name) || BestClash(split, dn, name))
    ensures ScanAll(split, dn, name, a) == ScanAll(split, dn, name, b)
  {
    ScanFinds(split, dn, name, a);
    ScanFinds(split, dn, name, b);
    ScanKnows(split, dn, name, a);
    ScanKnows(split, dn, name, b);
    var s, t := ScanAll(split, dn, name, a), ScanAll(split, dn, name, b);
    if s.At? && t.At? { KnowsUnique(split, dn, name, a, s, b, t); }
  }

  lemma KnowsUnique(split: Split, dn: Aliases, name: string, a: seq<string>, s: Scan, b: seq<string>, t: Scan)
    requires Covers(a, dn) && Covers(b, dn) && s.At? && t.At?
    requires Knows(split, dn, name, a, s) && Knows(split, dn, name, b, t)
    ensures s == t
  {
    if s.best >= 0 && t.best >= 0 {
      var x :| x in a && Applies(split, dn, name, x) && Rank(split, x) == s.best && dn[x].ttl == s.ttl;
      var y :| y in b && Applies(split, dn, name, y) && Rank(split, y) == t.best && dn[y].ttl == t.ttl;
      assert x in b && y in a && Below(split, dn, name, x, t) && Below(split, dn, name, y, s);
    }
  }

  /** The inner loop of `kernelDirectTerminal`, over the map in the order it happens to take. */
  method ScanDnames(split: Split, dn: Aliases, name: string, order: seq<string>) returns (st: Scan)
    requires Covers(order, dn)
    ensures st == ScanAll(split, dn, name, order)
    ensures st.Fail? ==> BestClash(split, dn, name) || LowerClash(split, dn, name)
    ensures st.At? && st.best < 0 ==> FindsNone(split, dn, name)
    ensures st.At? && st.best >= 0 ==> Finds(split, dn, name, st.target, st.ttl)
    ensures st.At? ==> !BestClash(split, dn, name)
  {
    st := At(-1, "", 0);
    for i := 0 to |order|
      invariant st == ScanAll(split, dn, name, order[..i]) && st.At?
    {
      st := Visit(split, dn, name, st, order[i]);
      VisitNext(split, dn, name, order, i);
      if st.Fail? { break; }
    }
    assert order[..|order|] == order;
    ScanFinds(split, dn, name, order);
  }

  lemma VisitNext(split: Split, dn: Aliases, name: string, order: seq<string>, i: nat)
    requires i < |order|
    ensures var st := Visit(split, dn, name, ScanAll(split, dn, name, order[..i]), order[i]);
      && ScanAll(split, dn, name, order[..i + 1]) == st
      && (st.Fail? ==> ScanAll(split, dn, name, order) == st)
  {
    assert order[..i + 1][..i] == order[..i];
    if ScanAll(split, dn, name, order[..i + 1]).Fail? {
      FailStays(split, dn, name, order[..i + 1], order[i + 1..]);
      assert order[..i + 1] + order[i + 1..] == order;
    }
  }
}
