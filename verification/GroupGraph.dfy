/** The reference graph of the proxy groups: a group refers to the proxies it lists, which
    may be groups themselves. Counting, cycles and dependency order. */
module GroupGraph {

  datatype Option<T> = None | Some(value: T)

  /** One entry of the group configuration, decoded or not. */
  datatype Mapping = Decodes(name: string, proxies: seq<string>) | Undecodable

  predicate AllDecode(gs: seq<Mapping>) {
    forall i :: 0 <= i < |gs| ==> gs[i].Decodes?
  }

  predicate Distinct(gs: seq<Mapping>)
    requires AllDecode(gs)
  {
    forall i, j :: 0 <= i < j < |gs| ==> gs[i].name != gs[j].name
  }

  /** Every entry decodes and no two groups share a name. */
  predicate Sound(gs: seq<Mapping>) { AllDecode(gs) && Distinct(gs) }

  predicate IsGroup(gs: seq<Mapping>, x: string)
    requires AllDecode(gs)
  {
    exists i :: 0 <= i < |gs| && gs[i].name == x
  }

  predicate Edge(gs: seq<Mapping>, x: string, y: string)
    requires AllDecode(gs)
  {
    exists i :: 0 <= i < |gs| && gs[i].name == x && y in gs[i].proxies
  }

  // ------------------------------------------------------------------------- counting

  function Count(s: seq<string>, x: string): nat {
    if s == [] then 0 else (if s[0] == x then 1 else 0) + Count(s[1..], x)
  }

  lemma {:induction false} CountZero(s: seq<string>, x: string)
    ensures Count(s, x) == 0 <==> x !in s
  {
    if s != [] {
      CountZero(s[1..], x);
      assert s == [s[0]] + s[1..];
    }
  }

  lemma CountAppend(s: seq<string>, y: string, x: string)
    ensures Count(s + [y], x) == Count(s, x) + (if y == x then 1 else 0)
  {
    if s != [] {
      CountAppend(s[1..], y, x);
      assert (s + [y])[1..] == s[1..] + [y];
    }
  }

  lemma CountPrefix(s: seq<string>, j: nat, x: string)
    requires j < |s|
    ensures Count(s[..j + 1], x) == Count(s[..j], x) + (if s[j] == x then 1 else 0)
  {
    assert s[..j + 1] == s[..j] + [s[j]];
    CountAppend(s[..j], s[j], x);
  }

  /** The group of that name. */
  function Find(gs: seq<Mapping>, n: string): Option<Mapping>
    requires AllDecode(gs)
  {
    if gs == [] then None else if gs[0].name == n then Some(gs[0]) else Find(gs[1..], n)
  }

  lemma {:induction false} FindIs(gs: seq<Mapping>, n: string)
    requires AllDecode(gs)
    ensures Find(gs, n).Some? <==> IsGroup(gs, n)
    ensures Find(gs, n).Some? ==> exists i :: 0 <= i < |gs| && gs[i] == Find(gs, n).value && gs[i].name == n
  {
    if gs != [] && gs[0].name != n {
      FindIs(gs[1..], n);
      if Find(gs[1..], n).Some? {
        var i :| 0 <= i < |gs[1..]| && gs[1..][i] == Find(gs, n).value && gs[1..][i].name == n;
        assert gs[i + 1] == Find(gs, n).value;
      }
      if IsGroup(gs, n) {
        var i :| 0 <= i < |gs| && gs[i].name == n;
        assert gs[1..][i - 1].name == n;
      }
    }
  }

  lemma {:induction false} FindAt(gs: seq<Mapping>, i: nat)
    requires Sound(gs) && i < |gs|
    ensures Find(gs, gs[i].name) == Some(gs[i])
  {
    if i > 0 { FindAt(gs[1..], i - 1); }
  }

  lemma {:induction false} FindAppend(gs: seq<Mapping>, m: Mapping, n: string)
    requires AllDecode(gs) && m.Decodes?
    ensures Find(gs + [m], n) == if Find(gs, n).Some? then Find(gs, n) else if m.name == n then Some(m) else None
  {
    if gs != [] {
      FindAppend(gs[1..], m, n);
      assert (gs + [m])[1..] == gs[1..] + [m];
    }
  }

  /** All references to n, with repetitions. */
  function AllRefs(gs: seq<Mapping>, n: string): nat
    requires AllDecode(gs)
  {
    if gs == [] then 0 else Count(gs[0].proxies, n) + AllRefs(gs[1..], n)
  }

  lemma {:induction false} AllRefsAppend(gs: seq<Mapping>, m: Mapping, n: string)
    requires AllDecode(gs) && m.Decodes?
    ensures AllRefs(gs + [m], n) == AllRefs(gs, n) + Count(m.proxies, n)
  {
    if gs != [] {
      AllRefsAppend(gs[1..], m, n);
      assert (gs + [m])[1..] == gs[1..] + [m];
    }
  }

  lemma {:induction false} AllRefsAreRefs(gs: seq<Mapping>, live: set<string>, n: string)
    requires AllDecode(gs) && forall i :: 0 <= i < |gs| ==> gs[i].name in live
    ensures Refs(gs, live, n) == AllRefs(gs, n)
  {
    if gs != [] { AllRefsAreRefs(gs[1..], live, n); }
  }

  /** References to n, with repetitions, from the groups whose names are in live. */
  function Refs(gs: seq<Mapping>, live: set<string>, n: string): nat
    requires AllDecode(gs)
  {
    if gs == [] then 0
    else (if gs[0].name in live then Count(gs[0].proxies, n) else 0) + Refs(gs[1..], live, n)
  }

  lemma {:induction false} RefsOutside(gs: seq<Mapping>, live: set<string>, x: string, n: string)
    requires AllDecode(gs) && !IsGroup(gs, x)
    ensures Refs(gs, live, n) == Refs(gs, live - {x}, n)
  {
    if gs != [] {
      assert gs[0].name != x;
      RefsOutside(gs[1..], live, x, n);
    }
  }

  lemma {:induction false} RefsWithout(gs: seq<Mapping>, live: set<string>, i: nat, n: string)
    requires Sound(gs) && i < |gs| && gs[i].name in live
    ensures Refs(gs, live, n) == Refs(gs, live - {gs[i].name}, n) + Count(gs[i].proxies, n)
  {
    var x := gs[i].name;
    if i == 0 {
      assert !IsGroup(gs[1..], x);
      RefsOutside(gs[1..], live, x, n);
    } else {
      assert gs[0].name != x;
      RefsWithout(gs[1..], live, i - 1, n);
    }
  }

  lemma {:induction false} RefsPositive(gs: seq<Mapping>, live: set<string>, n: string)
    requires AllDecode(gs)
    ensures Refs(gs, live, n) > 0 <==> exists i :: 0 <= i < |gs| && gs[i].name in live && n in gs[i].proxies
  {
    if gs != [] {
      RefsPositive(gs[1..], live, n);
      CountZero(gs[0].proxies, n);
      if Refs(gs[1..], live, n) > 0 {
        var i :| 0 <= i < |gs[1..]| && gs[1..][i].name in live && n in gs[1..][i].proxies;
        assert gs[i + 1].name in live && n in gs[i + 1].proxies;
      }
      if i :| 0 <= i < |gs| && gs[i].name in live && n in gs[i].proxies {
        if i > 0 { assert gs[1..][i - 1] == gs[i]; }
      }
    }
  }

  /** Positions of s whose name is in live. */
  function Within(s: seq<string>, live: set<string>): nat {
    if s == [] then 0 else (if s[0] in live then 1 else 0) + Within(s[1..], live)
  }

  lemma {:induction false} WithinWithout(s: seq<string>, live: set<string>, x: string)
    requires x in live
    ensures Within(s, live) == Within(s, live - {x}) + Count(s, x)
  {
    if s != [] { WithinWithout(s[1..], live, x); }
  }

  lemma {:induction false} WithinPositive(s: seq<string>, live: set<string>)
    ensures Within(s, live) > 0 <==> exists y :: y in s && y in live
    ensures Within(s, live) <= |s|
    ensures (forall y :: y in s ==> y in live) ==> Within(s, live) == |s|
  {
    if s != [] {
      WithinPositive(s[1..], live);
      assert s == [s[0]] + s[1..];
    }
  }

  // --------------------------------------------------------------------- cycles, order

  ghost predicate Step(gs: seq<Mapping>, p: seq<string>, i: int)
    requires AllDecode(gs) && 0 <= i < |p| - 1
  {
    Edge(gs, p[i], p[i + 1])
  }

  ghost predicate IsPath(gs: seq<Mapping>, p: seq<string>)
    requires AllDecode(gs)
  {
    forall i :: 0 <= i < |p| - 1 ==> Step(gs, p, i)
  }

  ghost predicate IsCycle(gs: seq<Mapping>, p: seq<string>)
    requires AllDecode(gs)
  {
    |p| >= 2 && p[0] == p[|p| - 1] && IsPath(gs, p)
  }

  ghost predicate Cyclic(gs: seq<Mapping>)
    requires AllDecode(gs)
  {
    exists p :: IsCycle(gs, p)
  }

  ghost predicate EarlierIn(b: seq<Mapping>, k: int, y: string)
    requires AllDecode(b) && 0 <= k <= |b|
  {
    exists j :: 0 <= j < k && b[j].name == y
  }

  /** Every group comes after every group it refers to. */
  ghost predicate DependenciesFirst(b: seq<Mapping>)
    requires AllDecode(b)
  {
    forall k, y :: 0 <= k < |b| && y in b[k].proxies && IsGroup(b, y) ==> EarlierIn(b, k, y)
  }

  /** Along a path the position of a group can only fall. */
  lemma {:induction false} PathDescends(b: seq<Mapping>, p: seq<string>, k: nat)
    requires Sound(b) && DependenciesFirst(b) && IsPath(b, p) && |p| >= 2
    requires k < |b| && b[k].name == p[0] && IsGroup(b, p[|p| - 1])
    ensures EarlierIn(b, k, p[|p| - 1])
    decreases |p|
  {
    FirstStep(b, p, k);
    if |p| > 2 {
      assert Step(b, p, 1);
      assert EarlierIn(b, k, p[1]);
      var j :| 0 <= j < k && b[j].name == p[1];
      forall i | 0 <= i < |p[1..]| - 1 ensures Step(b, p[1..], i) { assert Step(b, p, i + 1); }
      PathDescends(b, p[1..], j);
    }
  }

  lemma FirstStep(b: seq<Mapping>, p: seq<string>, k: nat)
    requires Sound(b) && IsPath(b, p) && |p| >= 2 && k < |b| && b[k].name == p[0]
    ensures p[1] in b[k].proxies
  {
    assert Step(b, p, 0);
    var i :| 0 <= i < |b| && b[i].name == p[0] && p[1] in b[i].proxies;
    assert i == k;
  }

  lemma OrderedIsAcyclic(b: seq<Mapping>)
    requires Sound(b) && DependenciesFirst(b)
    ensures !Cyclic(b)
  {
    forall p | IsCycle(b, p) ensures false {
      assert Step(b, p, 0);
      var k :| 0 <= k < |b| && b[k].name == p[0];
      PathDescends(b, p, k);
    }
  }

  /** Rearranging the entries changes no edge. */
  lemma EdgesPermute(a: seq<Mapping>, b: seq<Mapping>)
    requires AllDecode(a) && AllDecode(b) && multiset(a) == multiset(b)
    ensures forall x, y :: Edge(a, x, y) <==> Edge(b, x, y)
    ensures forall x :: IsGroup(a, x) <==> IsGroup(b, x)
  {
    forall i | 0 <= i < |a| ensures exists j :: 0 <= j < |b| && b[j] == a[i] { assert a[i] in multiset(b); }
    forall i | 0 <= i < |b| ensures exists j :: 0 <= j < |a| && a[j] == b[i] { assert b[i] in multiset(a); }
  }

  lemma {:induction false} SoundPermutes(a: seq<Mapping>, b: seq<Mapping>)
    requires Sound(a) && AllDecode(b) && multiset(b) == multiset(a)
    ensures Sound(b)
  {
    forall i, j | 0 <= i < j < |b| ensures b[i].name != b[j].name {
      if b[i].name == b[j].name {
        var k := IndexIn(a, b[i], multiset(b));
        var l := IndexIn(a, b[j], multiset(b));
        assert k == l;
        Twice(b, i, j);
        Once(a, k);
      }
    }
  }

  lemma IndexIn(a: seq<Mapping>, m: Mapping, b: multiset<Mapping>) returns (k: nat)
    requires b == multiset(a) && m in b
    ensures k < |a| && a[k] == m
  {
    assert m in a;
    k :| k < |a| && a[k] == m;
  }

  lemma Twice(b: seq<Mapping>, i: nat, j: nat)
    requires i < j < |b| && b[i] == b[j]
    ensures multiset(b)[b[i]] >= 2
  {
    assert b == b[..j] + b[j..];
    assert b[i] in b[..j] && b[j] in b[j..];
  }

  lemma {:induction false} Once(a: seq<Mapping>, k: nat)
    requires Sound(a) && k < |a|
    ensures multiset(a)[a[k]] == 1
  {
    assert a == [a[0]] + a[1..];
    if k > 0 { Once(a[1..], k - 1); } else { assert a[0] !in a[1..]; }
  }

  lemma CyclesPermute(a: seq<Mapping>, b: seq<Mapping>)
    requires AllDecode(a) && AllDecode(b) && multiset(a) == multiset(b)
    ensures Cyclic(a) <==> Cyclic(b)
  {
    EdgesPermute(a, b);
    forall p ensures IsCycle(a, p) <==> IsCycle(b, p) {
      forall i | 0 <= i < |p| - 1 ensures Step(a, p, i) <==> Step(b, p, i) { }
    }
  }

  // ---------------------------------------------------- sets that contain their own loops

  ghost predicate HasNext(gs: seq<Mapping>, s: set<string>, x: string)
    requires AllDecode(gs)
  {
    exists y :: y in s && Edge(gs, x, y)
  }

  ghost predicate HasPrevious(gs: seq<Mapping>, s: set<string>, x: string)
    requires AllDecode(gs)
  {
    exists y :: y in s && Edge(gs, y, x)
  }

  ghost predicate AllHaveNext(gs: seq<Mapping>, s: set<string>)
    requires AllDecode(gs)
  {
    forall x {:trigger HasNext(gs, s, x)} :: x in s ==> HasNext(gs, s, x)
  }

  ghost predicate AllHavePrevious(gs: seq<Mapping>, s: set<string>)
    requires AllDecode(gs)
  {
    forall x {:trigger HasPrevious(gs, s, x)} :: x in s ==> HasPrevious(gs, s, x)
  }

  /** Every member has a predecessor and a successor inside the set. */
  ghost predicate Looped(gs: seq<Mapping>, s: set<string>)
    requires AllDecode(gs)
  {
    AllHaveNext(gs, s) && AllHavePrevious(gs, s)
  }

  lemma {:induction false} Pigeonhole(p: seq<string>, s: set<string>)
    requires |p| > |s| && forall i :: 0 <= i < |p| ==> p[i] in s
    ensures exists i, j :: 0 <= i < j < |p| && p[i] == p[j]
    decreases |s|
  {
    var x := p[|p| - 1];
    var q := p[..|p| - 1];
    if k :| 0 <= k < |q| && q[k] == x {
      assert p[k] == p[|p| - 1];
    } else {
      assert |s - {x}| == |s| - 1;
      Pigeonhole(q, s - {x});
      var i, j :| 0 <= i < j < |q| && q[i] == q[j];
      assert p[i] == p[j];
    }
  }

  lemma PrependPath(gs: seq<Mapping>, x: string, q: seq<string>)
    requires AllDecode(gs) && q != [] && IsPath(gs, q) && Edge(gs, x, q[0])
    ensures IsPath(gs, [x] + q)
  {
    var p := [x] + q;
    forall i | 0 <= i < |p| - 1 ensures Step(gs, p, i) {
      if i > 0 { assert Step(gs, q, i - 1); }
    }
  }

  lemma SubPath(gs: seq<Mapping>, p: seq<string>, i: nat, j: nat)
    requires AllDecode(gs) && IsPath(gs, p) && i <= j <= |p|
    ensures IsPath(gs, p[i..j])
  {
    forall k | 0 <= k < |p[i..j]| - 1 ensures Step(gs, p[i..j], k) { assert Step(gs, p, i + k); }
  }

  /** A walk of n steps that stays in the set. */
  lemma {:induction false} WalkInside(gs: seq<Mapping>, s: set<string>, x: string, n: nat) returns (p: seq<string>)
    requires AllDecode(gs) && x in s && AllHaveNext(gs, s)
    ensures |p| == n + 1 && p[0] == x && IsPath(gs, p) && forall i :: 0 <= i < |p| ==> p[i] in s
    decreases n
  {
    if n == 0 {
      p := [x];
    } else {
      assert HasNext(gs, s, x);
      var y :| y in s && Edge(gs, x, y);
      var q := WalkInside(gs, s, y, n - 1);
      p := [x] + q;
      PrependPath(gs, x, q);
    }
  }

  /** A non-empty finite set in which every member has a successor holds a cycle. */
  lemma LoopedIsCyclic(gs: seq<Mapping>, s: set<string>)
    requires AllDecode(gs) && s != {} && AllHaveNext(gs, s)
    ensures Cyclic(gs)
  {
    var x :| x in s;
    var p := WalkInside(gs, s, x, |s|);
    Pigeonhole(p, s);
    var i, j :| 0 <= i < j < |p| && p[i] == p[j];
    var c := p[i..j + 1];
    SubPath(gs, p, i, j + 1);
    assert IsCycle(gs, c);
  }

  /** The nodes of a cycle form such a set. */
  lemma CycleIsLooped(gs: seq<Mapping>, p: seq<string>)
    requires AllDecode(gs) && IsCycle(gs, p)
    ensures Looped(gs, set i | 0 <= i < |p| :: p[i])
  {
    var s := set i | 0 <= i < |p| :: p[i];
    forall x | x in s ensures HasNext(gs, s, x) && HasPrevious(gs, s, x) {
      var i :| 0 <= i < |p| && p[i] == x;
      var next := if i == |p| - 1 then 0 else i;
      assert Step(gs, p, next) && p[next + 1] in s;
      var before := if i == 0 then |p| - 2 else i - 1;
      assert Step(gs, p, before) && p[before] in s;
    }
  }
}
