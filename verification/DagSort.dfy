/** `proxyGroupsDagSort` of config/utils.go: Kahn's algorithm over the reference graph,
    writing the sorted groups back into the configuration from its end, and the search for
    the loop when groups are left over. Wherever the original ranges over a map, the order
    is arbitrary here too. */
module DagSort {
  import opened GroupGraph

  datatype Node = Node(indegree: int, data: Option<Mapping>, outdegree: int, from: seq<string>)

  type Graph = map<string, Node>

  // ------------------------------------------------------------- step 1.1: the graph

  function Indegree(g: Graph, n: string): int { if n in g then g[n].indegree else 0 }

  function Data(g: Graph, n: string): Option<Mapping> { if n in g then g[n].data else None }

  predicate Plain(g: Graph) {
    forall n :: n in g ==> g[n].outdegree == 0 && g[n].from == []
  }

  /** One more reference for every listed name; an unknown name becomes a node. */
  method AddReferences(g0: Graph, proxies: seq<string>) returns (g: Graph)
    requires Plain(g0)
    ensures Plain(g)
    ensures forall n :: n in g <==> n in g0 || n in proxies
    ensures forall n :: Indegree(g, n) == Indegree(g0, n) + Count(proxies, n)
    ensures forall n :: Data(g, n) == Data(g0, n)
  {
    g := g0;
    for j := 0 to |proxies|
      invariant Plain(g)
      invariant forall n :: n in g <==> n in g0 || n in proxies[..j]
      invariant forall n :: Indegree(g, n) == Indegree(g0, n) + Count(proxies[..j], n)
      invariant forall n :: Data(g, n) == Data(g0, n)
    {
      forall n ensures Count(proxies[..j + 1], n) == Count(proxies[..j], n) + (if proxies[j] == n then 1 else 0) {
        CountPrefix(proxies, j, n);
      }
      assert proxies[..j + 1] == proxies[..j] + [proxies[j]];
      var proxy := proxies[j];
      if proxy in g {
        g := g[proxy := g[proxy].(indegree := g[proxy].indegree + 1)];
      } else {
        g := g[proxy := Node(1, None, 0, [])];
      }
    }
    assert proxies[..|proxies|] == proxies;
  }

  /** What the graph says of the groups read so far. */
  ghost predicate Built(gs: seq<Mapping>, g: Graph)
    requires AllDecode(gs)
  {
    && Plain(g)
    && (forall n :: n in g <==> IsGroup(gs, n) || AllRefs(gs, n) > 0)
    && (forall n :: Indegree(g, n) == AllRefs(gs, n))
    && (forall n :: Data(g, n) == Find(gs, n))
  }

  lemma BuiltStep(gs: seq<Mapping>, m: Mapping, g: Graph, g': Graph)
    requires AllDecode(gs) && m.Decodes? && Built(gs, g) && Plain(g') && !IsGroup(gs, m.name)
    requires forall n :: n in g' <==> n in g || n == m.name || n in m.proxies
    requires forall n :: Indegree(g', n) == Indegree(g, n) + Count(m.proxies, n)
    requires forall n :: Data(g', n) == if n == m.name then Some(m) else Data(g, n)
    ensures AllDecode(gs + [m]) && Built(gs + [m], g')
  {
    forall n
      ensures Indegree(g', n) == AllRefs(gs + [m], n) && Data(g', n) == Find(gs + [m], n)
      ensures n in g' <==> IsGroup(gs + [m], n) || AllRefs(gs + [m], n) > 0
    {
      AllRefsAppend(gs, m, n);
      FindAppend(gs, m, n);
      FindIs(gs, n);
      FindIs(gs + [m], n);
      CountZero(m.proxies, n);
    }
  }

  datatype Outcome = Sorted | BadEntry | DuplicateName | Loop(elements: seq<string>)

  lemma SeenTwice(gs: seq<Mapping>, i: nat)
    requires i < |gs| && AllDecode(gs[..i]) && gs[i].Decodes? && IsGroup(gs[..i], gs[i].name)
    ensures !Sound(gs)
  {
    var k :| 0 <= k < i && gs[..i][k].name == gs[i].name;
    assert gs[..i][k] == gs[k];
  }

  /** The graph is built exactly when every entry decodes and no name repeats. */
  method BuildGraph(gs: seq<Mapping>) returns (r: Outcome, g: Graph)
    ensures r.Sorted? || r.BadEntry? || r.DuplicateName?
    ensures r.Sorted? <==> Sound(gs)
    ensures r.Sorted? ==> Built(gs, g)
  {
    g := map[];
    r := Sorted;
    for i := 0 to |gs|
      invariant Sound(gs[..i]) && Built(gs[..i], g)
    {
      var m := gs[i];
      if !m.Decodes? { return BadEntry, g; }
      FindIs(gs[..i], m.name);
      assert gs[..i + 1] == gs[..i] + [m];
      ghost var before := g;
      if m.name in g {
        if g[m.name].data.Some? {
          SeenTwice(gs, i);
          return DuplicateName, g;
        }
        g := g[m.name := g[m.name].(data := Some(m))];
      } else {
        g := g[m.name := Node(0, Some(m), 0, [])];
      }
      g := AddReferences(g, m.proxies);
      BuiltStep(gs[..i], m, before, g);
    }
    assert gs[..|gs|] == gs;
  }

  // ------------------------------------------------------ step 1.2: topological sort

  predicate NoDup(q: seq<string>) {
    forall i, j :: 0 <= i < j < |q| ==> q[i] != q[j]
  }

  /** The queue holds, once each, the nodes that nothing left refers to. */
  ghost predicate Queued(g: Graph, q: seq<string>) {
    NoDup(q) && forall n :: n in q <==> n in g && g[n].indegree == 0
  }

  method Unreferenced(g: Graph) returns (q: seq<string>)
    ensures Queued(g, q)
  {
    q := [];
    var todo := g.Keys;
    while todo != {}
      invariant todo <= g.Keys && NoDup(q)
      invariant forall n :: n in q <==> n in g.Keys - todo && g[n].indegree == 0
    {
      var n :| n in todo;
      todo := todo - {n};
      if g[n].indegree == 0 { q := q + [n]; }
    }
  }

  lemma QueuedStep(g: Graph, q: seq<string>, x: string)
    requires Queued(g, q) && x in g && g[x].indegree >= 1
    ensures var g' := g[x := g[x].(indegree := g[x].indegree - 1)];
            Queued(g', if g'[x].indegree == 0 then q + [x] else q)
  {
    assert x !in q;
  }

  /** The references of one group are taken away; what nothing refers to any more is queued. */
  method Release(g0: Graph, q0: seq<string>, proxies: seq<string>) returns (g: Graph, q: seq<string>)
    requires Queued(g0, q0)
    requires forall n :: n in proxies ==> n in g0
    requires forall n :: n in g0 ==> g0[n].indegree >= Count(proxies, n)
    ensures g.Keys == g0.Keys && Queued(g, q) && |q| >= |q0| && q[..|q0|] == q0
    ensures forall n :: n in g0 ==> g[n] == g0[n].(indegree := g0[n].indegree - Count(proxies, n))
  {
    g, q := g0, q0;
    for j := 0 to |proxies|
      invariant g.Keys == g0.Keys && Queued(g, q) && |q| >= |q0| && q[..|q0|] == q0
      invariant forall n :: n in g0 ==>
                  g[n] == g0[n].(indegree := g0[n].indegree - Count(proxies, n) + Count(proxies[j..], n))
    {
      assert proxies[j..][1..] == proxies[j + 1..];
      var proxy := proxies[j];
      assert Count(proxies[j..], proxy) >= 1;
      assert g[proxy].indegree >= 1;
      QueuedStep(g, q, proxy);
      g := g[proxy := g[proxy].(indegree := g[proxy].indegree - 1)];
      if g[proxy].indegree == 0 { q := q + [proxy]; }
    }
    assert proxies[|proxies|..] == [];
  }

  /** What is left of the graph while nodes are removed. */
  ghost predicate Counts(gs: seq<Mapping>, g: Graph)
    requires AllDecode(gs)
  {
    && Plain(g)
    && (forall n :: n in g ==> g[n].indegree == Refs(gs, g.Keys, n))
    && (forall n :: n in g ==> g[n].data == Find(gs, n))
  }

  /** A group still in the graph lists only nodes still in the graph. */
  ghost predicate Closed(gs: seq<Mapping>, live: set<string>)
    requires AllDecode(gs)
  {
    forall i, y :: 0 <= i < |gs| && gs[i].name in live && y in gs[i].proxies ==> y in live
  }

  lemma BuiltCounts(gs: seq<Mapping>, g: Graph)
    requires Sound(gs) && Built(gs, g)
    ensures Counts(gs, g) && Closed(gs, g.Keys)
    ensures forall i :: 0 <= i < |gs| ==> gs[i].name in g
  {
    forall i | 0 <= i < |gs| ensures gs[i].name in g { assert IsGroup(gs, gs[i].name); }
    forall n | n in g ensures g[n].indegree == Refs(gs, g.Keys, n) && g[n].data == Find(gs, n) {
      AllRefsAreRefs(gs, g.Keys, n);
      assert Indegree(g, n) == AllRefs(gs, n) && Data(g, n) == Find(gs, n);
    }
    forall i, y | 0 <= i < |gs| && gs[i].name in g && y in gs[i].proxies ensures y in g {
      AllRefsAreRefs(gs, g.Keys, y);
      RefsPositive(gs, g.Keys, y);
    }
  }

  /** A node nothing refers to can be taken out together with its references. */
  lemma RemoveUnreferenced(gs: seq<Mapping>, g: Graph, g': Graph, x: string)
    requires Sound(gs) && Counts(gs, g) && Closed(gs, g.Keys) && x in g && g[x].indegree == 0
    requires g'.Keys == g.Keys
    requires forall n :: n in g ==> g'[n] == g[n].(indegree := g[n].indegree -
               (if g[x].data.Some? && g[x].data.value.Decodes? then Count(g[x].data.value.proxies, n) else 0))
    ensures Counts(gs, g' - {x}) && Closed(gs, (g' - {x}).Keys)
  {
    var h := g' - {x};
    assert h.Keys == g.Keys - {x};
    FindIs(gs, x);
    forall n | n in h ensures h[n].indegree == Refs(gs, h.Keys, n) && h[n].data == Find(gs, n) {
      if g[x].data.Some? {
        var i :| 0 <= i < |gs| && gs[i] == Find(gs, x).value && gs[i].name == x;
        RefsWithout(gs, g.Keys, i, n);
      } else {
        RefsOutside(gs, g.Keys, x, n);
      }
    }
    RefsPositive(gs, g.Keys, x);
  }

  /** The references of an unreferenced group can be released. */
  lemma CanRelease(gs: seq<Mapping>, g: Graph, x: string)
    requires Sound(gs) && Counts(gs, g) && Closed(gs, g.Keys) && x in g && g[x].indegree == 0 && g[x].data.Some?
    ensures var m := g[x].data.value;
            && m.Decodes? && m.name == x && m in gs && x !in m.proxies
            && (forall n :: n in m.proxies ==> n in g)
            && (forall n :: n in g ==> g[n].indegree >= Count(m.proxies, n))
  {
    FindIs(gs, x);
    var i :| 0 <= i < |gs| && gs[i] == Find(gs, x).value && gs[i].name == x;
    forall n | n in g ensures g[n].indegree >= Count(gs[i].proxies, n) { RefsWithout(gs, g.Keys, i, n); }
    CountZero(gs[i].proxies, x);
  }

  // ------------------------------------------------------------ what is written back

  /** The groups still in the graph. */
  function Rest(gs: seq<Mapping>, live: set<string>): multiset<Mapping>
    requires AllDecode(gs)
  {
    if gs == [] then multiset{}
    else (if gs[0].name in live then multiset{gs[0]} else multiset{}) + Rest(gs[1..], live)
  }

  lemma {:induction false} RestOutside(gs: seq<Mapping>, live: set<string>, x: string)
    requires AllDecode(gs) && !IsGroup(gs, x)
    ensures Rest(gs, live) == Rest(gs, live - {x})
  {
    if gs != [] {
      assert gs[0].name != x;
      RestOutside(gs[1..], live, x);
    }
  }

  lemma {:induction false} RestWithout(gs: seq<Mapping>, live: set<string>, i: nat)
    requires Sound(gs) && i < |gs| && gs[i].name in live
    ensures Rest(gs, live) == Rest(gs, live - {gs[i].name}) + multiset{gs[i]}
  {
    if i == 0 {
      assert !IsGroup(gs[1..], gs[0].name);
      RestOutside(gs[1..], live, gs[0].name);
    } else {
      assert gs[0].name != gs[i].name;
      RestWithout(gs[1..], live, i - 1);
    }
  }

  lemma {:induction false} RestAll(gs: seq<Mapping>, live: set<string>)
    requires AllDecode(gs)
    ensures (forall i :: 0 <= i < |gs| ==> gs[i].name in live) ==> Rest(gs, live) == multiset(gs)
    ensures live == {} ==> Rest(gs, live) == multiset{}
  {
    if gs != [] {
      RestAll(gs[1..], live);
      assert gs == [gs[0]] + gs[1..];
    }
  }

  /** The groups written so far, last one first, and those in the graph make up the input;
      what a written group refers to is written before it or still to come. */
  ghost predicate Written(gs: seq<Mapping>, live: set<string>, b: seq<Mapping>)
    requires AllDecode(gs)
  {
    && AllDecode(b)
    && multiset(b) + Rest(gs, live) == multiset(gs)
    && forall k, y :: 0 <= k < |b| && y in b[k].proxies && IsGroup(gs, y) ==> y in live || EarlierIn(b, k, y)
  }

  lemma WriteGroup(gs: seq<Mapping>, live: set<string>, b: seq<Mapping>, i: nat)
    requires Sound(gs) && Written(gs, live, b) && i < |gs| && gs[i].name in live
    requires Closed(gs, live) && gs[i].name !in gs[i].proxies
    ensures |b| < |gs| && Written(gs, live - {gs[i].name}, [gs[i]] + b)
  {
    var x, c := gs[i].name, [gs[i]] + b;
    RestWithout(gs, live, i);
    assert |multiset(b)| + |Rest(gs, live)| == |multiset(gs)|;
    assert multiset(c) == multiset{gs[i]} + multiset(b);
    forall k, y | 0 <= k < |c| && y in c[k].proxies && IsGroup(gs, y)
      ensures y in live - {x} || EarlierIn(c, k, y)
    {
      if k > 0 {
        assert c[k] == b[k - 1];
        if y == x {
          assert c[0].name == y;
        } else if y !in live {
          var j :| 0 <= j < k - 1 && b[j].name == y;
          assert c[j + 1].name == y;
        }
      }
    }
  }

  lemma WriteNothing(gs: seq<Mapping>, live: set<string>, b: seq<Mapping>, x: string)
    requires Sound(gs) && Written(gs, live, b) && !IsGroup(gs, x)
    ensures Written(gs, live - {x}, b)
  {
    RestOutside(gs, live, x);
  }

  lemma AllWritten(gs: seq<Mapping>, b: seq<Mapping>)
    requires Sound(gs) && Written(gs, {}, b)
    ensures multiset(b) == multiset(gs) && DependenciesFirst(b) && |b| == |gs|
  {
    RestAll(gs, {});
    EdgesPermute(gs, b);
    assert |multiset(b)| == |multiset(gs)|;
  }

  /** Every set of nodes in which each has a predecessor and a successor is in the graph. */
  lemma LoopedInGraph(gs: seq<Mapping>, g: Graph, s: set<string>)
    requires Sound(gs) && Built(gs, g) && Looped(gs, s)
    ensures s <= g.Keys
  {
    BuiltCounts(gs, g);
    forall x | x in s ensures x in g {
      assert HasNext(gs, s, x);
      var y :| y in s && Edge(gs, x, y);
      assert IsGroup(gs, x);
    }
  }

  lemma LoopedStays(gs: seq<Mapping>, g: Graph, s: set<string>, x: string)
    requires Sound(gs) && Counts(gs, g) && Looped(gs, s) && s <= g.Keys && x in g && g[x].indegree == 0
    ensures x !in s
  {
    RefsPositive(gs, g.Keys, x);
    assert x in s ==> HasPrevious(gs, s, x);
  }

  lemma QueuedTail(g: Graph, q: seq<string>)
    requires Queued(g, q) && q != []
    ensures Queued(g - {q[0]}, q[1..])
  {
    assert q == [q[0]] + q[1..];
  }

  /** One turn of the loop: the front of the queue leaves the graph. */
  method Dequeue(g0: Graph, q0: seq<string>, ghost gs: seq<Mapping>, ghost s: set<string>)
    returns (g: Graph, q: seq<string>)
    requires Sound(gs) && Counts(gs, g0) && Closed(gs, g0.Keys) && Queued(g0, q0) && q0 != []
    requires Looped(gs, s) && s <= g0.Keys
    ensures Counts(gs, g) && Closed(gs, g.Keys) && Queued(g, q)
    ensures g.Keys == g0.Keys - {q0[0]} && s <= g.Keys && q0[0] in g0
  {
    var name := q0[0];
    assert name in q0;
    var node := g0[name];
    g, q := g0, q0;
    if node.data.Some? {
      CanRelease(gs, g0, name);
      g, q := Release(g0, q0, node.data.value.proxies);
    }
    RemoveUnreferenced(gs, g0, g, name);
    LoopedStays(gs, g0, s, name);
    assert q[0] == name by { assert q[..|q0|][0] == q0[0]; }
    QueuedTail(g, q);
    g := g - {name};
    q := q[1..];
  }

  function Next(node: Node, b: seq<Mapping>): seq<Mapping> {
    if node.data.Some? then [node.data.value] + b else b
  }

  lemma WriteStep(gs: seq<Mapping>, g: Graph, b: seq<Mapping>, x: string)
    requires Sound(gs) && Counts(gs, g) && Closed(gs, g.Keys) && x in g && g[x].indegree == 0 && Written(gs, g.Keys, b)
    ensures Written(gs, g.Keys - {x}, Next(g[x], b))
    ensures |Next(g[x], b)| <= |gs|
  {
    FindIs(gs, x);
    if g[x].data.Some? {
      CanRelease(gs, g, x);
      var i :| 0 <= i < |gs| && gs[i] == g[x].data.value;
      WriteGroup(gs, g.Keys, b, i);
    } else {
      WriteNothing(gs, g.Keys, b, x);
      assert |multiset(b)| <= |multiset(gs)|;
    }
  }

  method WriteBack(a: array<Mapping>, i: nat, m: Mapping)
    requires i < a.Length
    modifies a
    ensures a[i..] == [m] + old(a[i + 1..])
  {
    a[i] := m;
  }

  /** The invariant of the sorting loop. */
  ghost predicate Kahn(gs: seq<Mapping>, s: set<string>, g: Graph, q: seq<string>, b: seq<Mapping>)
    requires AllDecode(gs)
  {
    Counts(gs, g) && Closed(gs, g.Keys) && s <= g.Keys && Queued(g, q) && Written(gs, g.Keys, b) && |b| <= |gs|
  }

  lemma KahnDone(gs: seq<Mapping>, s: set<string>, g: Graph, b: seq<Mapping>)
    requires Sound(gs) && Kahn(gs, s, g, [], b)
    ensures forall n :: n in g ==> g[n].indegree != 0
    ensures g == map[] ==> AllDecode(b) && |b| == |gs| && multiset(b) == multiset(gs) && DependenciesFirst(b)
  {
    forall n | n in g ensures g[n].indegree != 0 { assert n !in []; }
    if g == map[] {
      assert g.Keys == {};
      AllWritten(gs, b);
    }
  }

  /** One turn: the group at the front is written back and leaves the graph. */
  method Turn(a: array<Mapping>, index0: nat, g0: Graph, q0: seq<string>,
              ghost gs: seq<Mapping>, ghost s: set<string>, ghost b0: seq<Mapping>)
    returns (index: nat, g: Graph, q: seq<string>, ghost b: seq<Mapping>)
    requires Sound(gs) && Looped(gs, s) && a.Length == |gs| && Kahn(gs, s, g0, q0, b0) && q0 != []
    requires index0 == |b0| && a[a.Length - index0..] == b0
    modifies a
    ensures Kahn(gs, s, g, q, b) && g.Keys < g0.Keys
    ensures index == |b| && a[a.Length - index..] == b
  {
    var name := q0[0];
    assert name in q0;
    WriteStep(gs, g0, b0, name);
    b := Next(g0[name], b0);
    index := index0;
    if g0[name].data.Some? {
      index := index + 1;
      WriteBack(a, a.Length - index, g0[name].data.value);
    }
    g, q := Dequeue(g0, q0, gs, s);
  }

  lemma KahnStart(gs: seq<Mapping>, s: set<string>, g: Graph, q: seq<string>)
    requires Sound(gs) && Built(gs, g) && Looped(gs, s) && Queued(g, q)
    ensures Kahn(gs, s, g, q, [])
  {
    BuiltCounts(gs, g);
    LoopedInGraph(gs, g, s);
    RestAll(gs, g.Keys);
  }

  /** Kahn's algorithm: the groups go back into the array from its end, until no node is
      without a predecessor. */
  method TopoSort(a: array<Mapping>, g0: Graph, q0: seq<string>, ghost gs: seq<Mapping>, ghost s: set<string>)
    returns (g: Graph, ghost b: seq<Mapping>)
    requires Sound(gs) && Looped(gs, s) && a.Length == |gs| && Kahn(gs, s, g0, q0, [])
    modifies a
    ensures Kahn(gs, s, g, [], b) && a[a.Length - |b|..] == b
  {
    g, b := g0, [];
    var index, q := 0, q0;
    while q != []
      invariant Kahn(gs, s, g, q, b) && index == |b| && a[a.Length - index..] == b
      decreases g.Keys
    {
      index, g, q, b := Turn(a, index, g, q, gs, s, b);
    }
  }
}
