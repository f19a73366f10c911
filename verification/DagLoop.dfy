/** The second half of `proxyGroupsDagSort`: when nodes are left after the sort, nodes that
    lead to no loop are peeled off and the rest is reported; and the whole function. */
module DagLoop {
  import opened GroupGraph
  import opened DagSort

  /** What the node lists, as far as the graph knows. */
  function Lists(g: Graph, n: string): seq<string> {
    if n in g && g[n].data.Some? && g[n].data.value.Decodes? then g[n].data.value.proxies else []
  }

  predicate SameShape(g: Graph, g': Graph) {
    g'.Keys == g.Keys && forall n :: n in g ==> g'[n].data == g[n].data && g'[n].indegree == g[n].indegree
  }

  // -------------------------------------------------------- step 2.1: outdegree and from

  /** How often f is recorded as a source of n. */
  function From(g: Graph, n: string, f: string): nat { if n in g then Count(g[n].from, f) else 0 }

  function Out(g: Graph, n: string): int { if n in g then g[n].outdegree else 0 }

  method AddSource(g0: Graph, name: string, proxies: seq<string>) returns (g: Graph)
    requires name in g0 && forall y :: y in proxies ==> y in g0
    ensures SameShape(g0, g)
    ensures forall n :: Out(g, n) == Out(g0, n) + (if n == name then |proxies| else 0)
    ensures forall n, f :: From(g, n, f) == From(g0, n, f) + (if f == name then Count(proxies, n) else 0)
  {
    g := g0;
    forall n ensures Count(proxies[..0], n) == 0 { assert proxies[..0] == []; }
    for j := 0 to |proxies|
      invariant SameShape(g0, g)
      invariant forall n :: Out(g, n) == Out(g0, n) + (if n == name then j else 0)
      invariant forall n, f :: From(g, n, f) == From(g0, n, f) + (if f == name then Count(proxies[..j], n) else 0)
    {
      ghost var h := g;
      var child := proxies[j];
      g := g[name := g[name].(outdegree := g[name].outdegree + 1)];
      g := g[child := g[child].(from := g[child].from + [name])];
      forall n, f
        ensures From(g, n, f) == From(g0, n, f) + (if f == name then Count(proxies[..j + 1], n) else 0)
      {
        CountPrefix(proxies, j, n);
        if n in h { CountAppend(h[n].from, name, f); }
      }
    }
    assert proxies[..|proxies|] == proxies;
  }

  /** `from` lists, for every node, the nodes that list it, as often as they do. */
  ghost predicate Sourced(g: Graph) {
    forall n, f :: n in g ==> From(g, n, f) == Count(Lists(g, f), n)
  }

  /** The nodes of `todo` still have to be entered. */
  ghost predicate Filling(g0: Graph, g: Graph, todo: set<string>) {
    && SameShape(g0, g)
    && (forall n :: n in g0 ==> Out(g, n) == if n in todo then 0 else |Lists(g0, n)|)
    && (forall n, f :: n in g0 ==> From(g, n, f) == if f in todo then 0 else Count(Lists(g0, f), n))
  }

  lemma ListsSame(g0: Graph, g: Graph)
    requires SameShape(g0, g)
    ensures forall n :: Lists(g, n) == Lists(g0, n)
  {
  }

  lemma FillStep(g0: Graph, g: Graph, g': Graph, todo: set<string>, name: string)
    requires Filling(g0, g, todo) && name in todo && name in g0 && SameShape(g, g')
    requires forall n :: Out(g', n) == Out(g, n) + (if n == name then |Lists(g0, name)| else 0)
    requires forall n, f :: From(g', n, f) == From(g, n, f) + (if f == name then Count(Lists(g0, name), n) else 0)
    ensures Filling(g0, g', todo - {name})
  {
  }

  method FillSources(g0: Graph) returns (g: Graph)
    requires Plain(g0) && forall n, y :: n in g0 && y in Lists(g0, n) ==> y in g0
    ensures SameShape(g0, g) && Sourced(g)
    ensures forall n :: n in g ==> g[n].outdegree == |Lists(g, n)|
  {
    g := g0;
    var todo := g0.Keys;
    while todo != {}
      invariant todo <= g0.Keys && Filling(g0, g, todo)
    {
      var name :| name in todo;
      ListsSame(g0, g);
      var h := AddSource(g, name, Lists(g, name));
      FillStep(g0, g, h, todo, name);
      g, todo := h, todo - {name};
    }
    FillDone(g0, g);
  }

  lemma FillDone(g0: Graph, g: Graph)
    requires Filling(g0, g, {})
    ensures Sourced(g) && forall n :: n in g ==> g[n].outdegree == |Lists(g, n)|
  {
    ListsSame(g0, g);
    forall n | n in g ensures g[n].outdegree == |Lists(g, n)| { assert Out(g, n) == |Lists(g0, n)|; }
  }

  // ------------------------------------------------------------- step 2.2: peeling off

  /** The queue holds, once each, the nodes that list nothing left. */
  ghost predicate Sinks(g: Graph, q: seq<string>) {
    NoDup(q) && forall n :: n in q <==> n in g && g[n].outdegree == 0
  }

  method FindSinks(g: Graph) returns (q: seq<string>)
    ensures Sinks(g, q)
  {
    q := [];
    var todo := g.Keys;
    while todo != {}
      invariant todo <= g.Keys && NoDup(q)
      invariant forall n :: n in q <==> n in g.Keys - todo && g[n].outdegree == 0
    {
      var n :| n in todo;
      todo := todo - {n};
      if g[n].outdegree == 0 { q := q + [n]; }
    }
  }

  lemma SinksStep(g: Graph, q: seq<string>, x: string)
    requires Sinks(g, q) && x in g && g[x].outdegree >= 1
    ensures var g' := g[x := g[x].(outdegree := g[x].outdegree - 1)];
            Sinks(g', if g'[x].outdegree == 0 then q + [x] else q)
  {
    assert x !in q;
  }

  lemma SinksTail(g: Graph, q: seq<string>)
    requires Sinks(g, q) && q != []
    ensures Sinks(g - {q[0]}, q[1..])
  {
    assert q == [q[0]] + q[1..];
  }

  /** The first j of the records have been taken off. */
  ghost predicate Unlisted(g0: Graph, g: Graph, from: seq<string>, j: nat)
    requires j <= |from| && g.Keys == g0.Keys
  {
    forall f :: f in g0 ==> g[f] == g0[f].(outdegree := g0[f].outdegree - Count(from, f) + Count(from[j..], f))
  }

  lemma UnlistedStep(g0: Graph, g: Graph, from: seq<string>, j: nat)
    requires j < |from| && g.Keys == g0.Keys && from[j] in g && Unlisted(g0, g, from, j)
    requires g0[from[j]].outdegree >= Count(from, from[j])
    ensures var f := from[j];
      && g[f].outdegree >= 1
      && Unlisted(g0, g[f := g[f].(outdegree := g[f].outdegree - 1)], from, j + 1)
  {
    assert from[j..][1..] == from[j + 1..];
  }

  /** Every recorded source loses one listed node per record. */
  method Unlist(g0: Graph, q0: seq<string>, from: seq<string>) returns (g: Graph, q: seq<string>)
    requires Sinks(g0, q0)
    requires forall f :: f in from ==> f in g0
    requires forall f :: f in g0 ==> g0[f].outdegree >= Count(from, f)
    ensures g.Keys == g0.Keys && Sinks(g, q) && |q| >= |q0| && q[..|q0|] == q0
    ensures forall f :: f in g0 ==> g[f] == g0[f].(outdegree := g0[f].outdegree - Count(from, f))
  {
    g, q := g0, q0;
    for j := 0 to |from|
      invariant g.Keys == g0.Keys && Sinks(g, q) && |q| >= |q0| && q[..|q0|] == q0
      invariant Unlisted(g0, g, from, j)
    {
      var f := from[j];
      UnlistedStep(g0, g, from, j);
      SinksStep(g, q, f);
      g := g[f := g[f].(outdegree := g[f].outdegree - 1)];
      if g[f].outdegree == 0 { q := q + [f]; }
    }
    assert from[|from|..] == [];
  }

  /** What holds of the graph g1 when peeling starts: the sources are recorded, and every
      node is listed by a node. */
  ghost predicate Listed(g1: Graph, n: string) { exists f :: f in g1 && n in Lists(g1, f) }

  ghost predicate Leftover(g1: Graph) {
    Sourced(g1) && g1 != map[] && forall n {:trigger Listed(g1, n)} :: n in g1 ==> Listed(g1, n)
  }

  /** g is what peeling has left of g1: a count of the nodes still listed, and no node
      peeled off that lists one still there. */
  ghost predicate Peeling(g1: Graph, g: Graph, q: seq<string>) {
    && g.Keys <= g1.Keys && g != map[] && Sinks(g, q)
    && (forall n :: n in g ==> g[n].data == g1[n].data && g[n].from == g1[n].from)
    && (forall n :: n in g ==> g[n].outdegree == Within(Lists(g1, n), g.Keys))
    && (forall n, y :: n in g1 && n !in g && y in Lists(g1, n) ==> y !in g)
  }

  /** The sources of a sink are still in the graph, and are not the sink itself. */
  lemma SourcesPresent(g1: Graph, g: Graph, q: seq<string>, x: string, f: string)
    requires Leftover(g1) && Peeling(g1, g, q) && x in g && g[x].outdegree == 0
    requires x in Lists(g1, f)
    ensures f in g && f != x && g[f].outdegree >= Count(Lists(g1, f), x)
  {
    assert f in g1;
    WithinWithout(Lists(g1, f), g.Keys, x);
    if f == x { CountZero(Lists(g1, f), x); }
  }

  /** A sink can be peeled off, and something is left. */
  lemma PeelOne(g1: Graph, g: Graph, q: seq<string>, h: Graph, q': seq<string>)
    requires Leftover(g1) && Peeling(g1, g, q) && q != []
    requires h.Keys == g.Keys && Sinks(h, q') && q' != [] && q'[0] == q[0]
    requires forall f :: f in g ==> h[f] == g[f].(outdegree := g[f].outdegree - Count(g[q[0]].from, f))
    ensures Peeling(g1, h - {q[0]}, q'[1..])
  {
    var x := q[0];
    assert x in q;
    var k := h - {x};
    assert k.Keys == g.Keys - {x};
    assert Listed(g1, x);
    var w :| w in g1 && x in Lists(g1, w);
    SourcesPresent(g1, g, q, x, w);
    assert w in k;
    SinksTail(h, q');
    forall n | n in k ensures k[n].outdegree == Within(Lists(g1, n), k.Keys) {
      WithinWithout(Lists(g1, n), g.Keys, x);
      assert From(g1, x, n) == Count(Lists(g1, n), x);
    }
    WithinPositive(Lists(g1, x), g.Keys);
  }

  /** The graph knows the groups as they were given. */
  ghost predicate Knows(gs: seq<Mapping>, g: Graph)
    requires AllDecode(gs)
  {
    forall n :: n in g ==> g[n].data == Find(gs, n)
  }

  lemma EdgeIsListed(gs: seq<Mapping>, g: Graph, x: string, y: string)
    requires Sound(gs) && Knows(gs, g) && x in g
    ensures Edge(gs, x, y) <==> y in Lists(g, x)
  {
    FindIs(gs, x);
    if Edge(gs, x, y) {
      var i :| 0 <= i < |gs| && gs[i].name == x && y in gs[i].proxies;
      FindAt(gs, i);
    }
  }

  lemma LoopedIsNoSink(gs: seq<Mapping>, g1: Graph, g: Graph, q: seq<string>, s: set<string>, x: string)
    requires Sound(gs) && Knows(gs, g1) && Peeling(g1, g, q) && Looped(gs, s) && s <= g.Keys
    requires x in g && g[x].outdegree == 0
    ensures x !in s
  {
    if x in s {
      assert HasNext(gs, s, x);
      var y :| y in s && Edge(gs, x, y);
      EdgeIsListed(gs, g1, x, y);
      WithinPositive(Lists(g1, x), g.Keys);
    }
  }

  method Peel(g1: Graph, q1: seq<string>, ghost gs: seq<Mapping>, ghost s: set<string>) returns (g: Graph)
    requires Sound(gs) && Knows(gs, g1) && Leftover(g1) && Peeling(g1, g1, q1)
    requires Looped(gs, s) && s <= g1.Keys
    ensures Peeling(g1, g, []) && s <= g.Keys
  {
    g := g1;
    var q := q1;
    while q != []
      invariant Peeling(g1, g, q) && s <= g.Keys
      decreases g.Keys
    {
      var name := q[0];
      assert name in q;
      SourcesAllPresent(g1, g, q, name);
      LoopedIsNoSink(gs, g1, g, q, s, name);
      var h, q' := Unlist(g, q, g[name].from);
      assert q'[0] == name by { assert q'[..|q|][0] == q[0]; }
      PeelOne(g1, g, q, h, q');
      g, q := h - {name}, q'[1..];
    }
  }

  lemma SourcesAllPresent(g1: Graph, g: Graph, q: seq<string>, x: string)
    requires Leftover(g1) && Peeling(g1, g, q) && x in g && g[x].outdegree == 0
    ensures forall f :: f in g[x].from ==> f in g
    ensures forall f :: f in g ==> g[f].outdegree >= Count(g[x].from, f)
  {
    forall f ensures f in g[x].from ==> f in g
      ensures f in g ==> g[f].outdegree >= Count(g[x].from, f)
    {
      assert From(g1, x, f) == Count(Lists(g1, f), x);
      CountZero(g[x].from, f);
      CountZero(Lists(g1, f), x);
      WithinPositive(Lists(g1, f), g.Keys);
      if x in Lists(g1, f) { SourcesPresent(g1, g, q, x, f); }
    }
  }

  /** What the sort leaves over can be peeled. */
  lemma SortLeavesLoops(gs: seq<Mapping>, g: Graph)
    requires Sound(gs) && Counts(gs, g) && Closed(gs, g.Keys) && forall n :: n in g ==> g[n].indegree != 0
    ensures Knows(gs, g)
    ensures forall n, y :: n in g && y in Lists(g, n) ==> y in g
    ensures forall n {:trigger Listed(g, n)} :: n in g ==> Listed(g, n)
  {
    forall n, y | n in g && y in Lists(g, n) ensures y in g {
      EdgeIsListed(gs, g, n, y);
      var i :| 0 <= i < |gs| && gs[i].name == n && y in gs[i].proxies;
    }
    forall n {:trigger Listed(g, n)} | n in g ensures Listed(g, n) {
      RefsPositive(gs, g.Keys, n);
      var i :| 0 <= i < |gs| && gs[i].name in g && n in gs[i].proxies;
      EdgeIsListed(gs, g, gs[i].name, n);
      assert Edge(gs, gs[i].name, n);
    }
  }

  lemma PeelingStart(gs: seq<Mapping>, g: Graph, g1: Graph, q: seq<string>)
    requires SameShape(g, g1) && Sourced(g1) && g != map[] && Sinks(g1, q)
    requires forall n :: n in g1 ==> g1[n].outdegree == |Lists(g1, n)|
    requires forall n, y :: n in g && y in Lists(g, n) ==> y in g
    requires forall n {:trigger Listed(g, n)} :: n in g ==> Listed(g, n)
    ensures Leftover(g1) && Peeling(g1, g1, q)
  {
    ListsSame(g, g1);
    var x :| x in g;
    assert x in g1;
    forall n {:trigger Listed(g1, n)} | n in g1 ensures Listed(g1, n) {
      assert Listed(g, n);
      var f :| f in g && n in Lists(g, f);
      assert f in g1 && n in Lists(g1, f);
    }
    forall n | n in g1 ensures g1[n].outdegree == Within(Lists(g1, n), g1.Keys) {
      WithinPositive(Lists(g1, n), g1.Keys);
    }
  }

  /** Peeling ends with a non-empty set whose members all have a predecessor and a
      successor in it. */
  lemma PeelingDone(gs: seq<Mapping>, g1: Graph, g: Graph)
    requires Sound(gs) && Knows(gs, g1) && Leftover(g1) && Peeling(g1, g, [])
    ensures Looped(gs, g.Keys) && g.Keys != {}
  {
    forall n {:trigger HasNext(gs, g.Keys, n)} | n in g ensures HasNext(gs, g.Keys, n) {
      assert n !in [];
      WithinPositive(Lists(g1, n), g.Keys);
      var y :| y in Lists(g1, n) && y in g.Keys;
      EdgeIsListed(gs, g1, n, y);
    }
    forall n {:trigger HasPrevious(gs, g.Keys, n)} | n in g ensures HasPrevious(gs, g.Keys, n) {
      assert Listed(g1, n);
      var f :| f in g1 && n in Lists(g1, f);
      EdgeIsListed(gs, g1, f, n);
    }
    assert g.Keys == {} ==> g == map[];
  }

  function Members(q: seq<string>): set<string> { set n | n in q }

  method NamesOf(g: Graph) returns (names: seq<string>)
    ensures NoDup(names) && forall n :: n in names <==> n in g
  {
    names := [];
    var todo := g.Keys;
    while todo != {}
      invariant todo <= g.Keys && NoDup(names) && (forall n :: n in names <==> n in g.Keys - todo)
    {
      var n :| n in todo;
      assert n !in names;
      todo := todo - {n};
      names := names + [n];
    }
  }

  method FindLoop(g0: Graph, ghost gs: seq<Mapping>, ghost s: set<string>) returns (elements: seq<string>)
    requires Sound(gs) && Counts(gs, g0) && Closed(gs, g0.Keys) && g0 != map[]
    requires forall n :: n in g0 ==> g0[n].indegree != 0
    requires Looped(gs, s) && s <= g0.Keys
    ensures NoDup(elements) && elements != []
    ensures Looped(gs, Members(elements))
    ensures forall n :: n in s ==> n in elements
  {
    SortLeavesLoops(gs, g0);
    var g1 := FillSources(g0);
    var q := FindSinks(g1);
    PeelingStart(gs, g0, g1, q);
    var g := Peel(g1, q, gs, s);
    PeelingDone(gs, g1, g);
    elements := NamesOf(g);
    assert Members(elements) == g.Keys;
  }

  /** The whole function. A sound configuration is sorted in place, or a loop is reported,
      exactly when there is one. The reported set is the largest in which every member has
      a predecessor and a successor: s stands for any other such set. */
  method ProxyGroupsDagSort(a: array<Mapping>, ghost s: set<string>) returns (r: Outcome)
    requires AllDecode(a[..]) ==> Looped(a[..], s)
    modifies a
    ensures r.Sorted? || r.Loop? <==> Sound(old(a[..]))
    ensures r.Loop? ==> Cyclic(old(a[..]))
    ensures r.Sorted? ==> !Cyclic(old(a[..]))
    ensures r.Sorted? ==> multiset(a[..]) == multiset(old(a[..])) && AllDecode(a[..]) && DependenciesFirst(a[..])
    ensures r.Loop? ==> r.elements != [] && NoDup(r.elements) && Looped(old(a[..]), Members(r.elements))
    ensures r.Loop? ==> forall n :: n in s ==> n in r.elements
    ensures r.BadEntry? || r.DuplicateName? ==> a[..] == old(a[..])
  {
    ghost var gs := a[..];
    var g: Graph;
    r, g := BuildGraph(a[..]);
    if !r.Sorted? { return; }
    var q := Unreferenced(g);
    KahnStart(gs, s, g, q);
    ghost var b;
    g, b := TopoSort(a, g, q, gs, s);
    KahnDone(gs, s, g, b);
    if g == map[] {
      assert a[..] == b;
      SortedIsAcyclic(gs, b);
      return;
    }
    var elements := FindLoop(g, gs, s);
    r := Loop(elements);
    assert elements[0] in Members(elements);
    LoopedIsCyclic(gs, Members(elements));
  }

  lemma SortedIsAcyclic(gs: seq<Mapping>, b: seq<Mapping>)
    requires Sound(gs) && AllDecode(b) && multiset(b) == multiset(gs) && |b| == |gs| && DependenciesFirst(b)
    ensures !Cyclic(gs)
  {
    SoundPermutes(gs, b);
    OrderedIsAcyclic(b);
    CyclesPermute(gs, b);
  }
}
