/** The dialer-proxy checks of config/utils.go. Every proxy has at most one dialer-proxy,
    so the graph is a partial function and each chain is a line. */
module DialerCycle {

  datatype Option<T> = None | Some(value: T)

  type Graph = map<string, string>

  /** The proxy n steps down the chain of x, if the chain is that long. */
  function Down(g: Graph, x: string, n: nat): Option<string> {
    if n == 0 then Some(x)
    else
      match Down(g, x, n - 1)
      case None => None
      case Some(y) => if y in g then Some(g[y]) else None
  }

  ghost predicate Meets(g: Graph, x: string, i: nat, j: nat) {
    Down(g, x, i).Some? && Down(g, x, i) == Down(g, x, j)
  }

  /** The chain of x comes to some proxy twice. */
  ghost predicate Repeats(g: Graph, x: string) {
    exists i: nat, j: nat :: i < j && Meets(g, x, i, j)
  }

  ghost predicate Ends(g: Graph, x: string) {
    exists n: nat :: Down(g, x, n).None?
  }

  lemma {:induction false} DownAdds(g: Graph, x: string, i: nat, n: nat)
    requires Down(g, x, i).Some?
    ensures Down(g, x, i + n) == Down(g, Down(g, x, i).value, n)
    decreases n
  {
    if n > 0 { DownAdds(g, x, i, n - 1); }
  }

  lemma {:induction false} NoneStays(g: Graph, x: string, n: nat, m: nat)
    requires Down(g, x, n).None? && n <= m
    ensures Down(g, x, m).None?
    decreases m
  {
    if n < m { NoneStays(g, x, n, m - 1); }
  }

  /** A chain that repeats a proxy is periodic from there on, so it never ends. */
  lemma {:induction false} RepeatsNeverEnds(g: Graph, x: string, i: nat, j: nat, n: nat)
    requires i < j && Meets(g, x, i, j)
    ensures Down(g, x, n).Some?
    decreases n
  {
    if n <= j {
      if Down(g, x, n).None? { NoneStays(g, x, n, j); }
    } else {
      RepeatsNeverEnds(g, x, i, j, n - (j - i));
      DownAdds(g, x, i, n - j);
      DownAdds(g, x, j, n - j);
    }
  }

  lemma EndsOrRepeats(g: Graph, x: string)
    requires Ends(g, x)
    ensures !Repeats(g, x)
  {
    var n: nat :| Down(g, x, n).None?;
    forall i: nat, j: nat | i < j ensures !Meets(g, x, i, j) {
      if Meets(g, x, i, j) { RepeatsNeverEnds(g, x, i, j, n); }
    }
  }

  lemma EndsStep(g: Graph, x: string)
    requires x in g ==> Ends(g, g[x])
    ensures Ends(g, x)
  {
    DownAdds(g, x, 0, 0);
    if x in g {
      var n: nat :| Down(g, g[x], n).None?;
      assert Down(g, x, 1) == Some(g[x]);
      DownAdds(g, x, 1, n);
      assert Down(g, x, 1 + n).None?;
    } else {
      assert Down(g, x, 1).None?;
    }
  }

  // -------------------------------------------------------------------- the linear walk

  datatype Mark = OnPath | Acyclic

  ghost function Names(g: Graph): set<string> { g.Keys + g.Values }

  /** The path so far is the chain of its first element. */
  ghost predicate IsChain(g: Graph, path: seq<string>) {
    forall i :: 0 <= i < |path| - 1 ==> Linked(g, path, i)
  }

  ghost predicate Linked(g: Graph, path: seq<string>, i: int)
    requires 0 <= i < |path| - 1
  {
    path[i] in g && g[path[i]] == path[i + 1]
  }

  lemma {:induction false} ChainIsDown(g: Graph, path: seq<string>, i: nat)
    requires path != [] && IsChain(g, path) && i < |path|
    ensures Down(g, path[0], i) == Some(path[i])
    decreases i
  {
    if i > 0 {
      ChainIsDown(g, path, i - 1);
      assert Linked(g, path, i - 1);
    }
  }

  lemma {:induction false} ChainEnds(g: Graph, path: seq<string>, i: nat)
    requires IsChain(g, path) && i < |path| && (path[|path| - 1] in g ==> Ends(g, g[path[|path| - 1]]))
    ensures Ends(g, path[i])
    decreases |path| - i
  {
    if i < |path| - 1 {
      ChainEnds(g, path, i + 1);
      assert Linked(g, path, i);
    }
    EndsStep(g, path[i]);
  }

  lemma ChainMeets(g: Graph, path: seq<string>, next: string)
    requires path != [] && IsChain(g, path) && path[|path| - 1] in g && g[path[|path| - 1]] == next && next in path
    ensures Repeats(g, path[0])
  {
    var i :| 0 <= i < |path| && path[i] == next;
    ChainIsDown(g, path, i);
    ChainIsDown(g, path, |path| - 1);
    assert Meets(g, path[0], i, |path|);
  }

  lemma ChainExtends(g: Graph, path: seq<string>, next: string)
    requires IsChain(g, path) && (path != [] ==> path[|path| - 1] in g && g[path[|path| - 1]] == next)
    ensures IsChain(g, path + [next])
  {
    var p := path + [next];
    forall i | 0 <= i < |p| - 1 ensures Linked(g, p, i) {
      if i < |path| - 1 { assert Linked(g, path, i); }
    }
  }

  /** Between walks every mark is `Acyclic`, and truly so. */
  ghost predicate Settled(g: Graph, state: map<string, Mark>) {
    forall p :: p in state ==> state[p].Acyclic? && Ends(g, p)
  }

  /** During a walk: the path is marked, everything marked before is settled. */
  ghost predicate Walking(g: Graph, state0: map<string, Mark>, state: map<string, Mark>, path: seq<string>) {
    && IsChain(g, path)
    && (forall p :: p in state <==> p in state0 || p in path)
    && (forall p :: p in state ==> state[p] == if p in path then OnPath else Acyclic)
  }

  /** Where the walk stands: at name, or one step past the end of the path. */
  ghost predicate Stands(g: Graph, name: string, path: seq<string>, current: string, ok: bool) {
    if path == [] then current == name && ok
    else path[0] == name && ok == (path[|path| - 1] in g) && (ok ==> g[path[|path| - 1]] == current)
  }

  lemma MarkNext(g: Graph, name: string, state0: map<string, Mark>, state: map<string, Mark>, path: seq<string>,
                 x: string)
    requires Walking(g, state0, state, path) && x !in state && Stands(g, name, path, x, true)
    ensures Walking(g, state0, state[x := OnPath], path + [x])
    ensures Stands(g, name, path + [x], if x in g then g[x] else x, x in g)
  {
    ChainExtends(g, path, x);
  }

  /** The names marked, in the order they were, each once. */
  ghost predicate Marked(marks: seq<string>, state: map<string, Mark>) {
    && (forall i, j :: 0 <= i < j < |marks| ==> marks[i] != marks[j])
    && (forall x :: x in marks <==> x in state)
  }

  lemma MarkOnce(marks: seq<string>, state: map<string, Mark>, x: string)
    requires Marked(marks, state) && x !in state
    ensures Marked(marks + [x], state[x := OnPath])
  {
    assert forall y :: y in marks + [x] <==> y in marks || y == x;
  }

  lemma ValueIsName(g: Graph, x: string)
    requires x in g
    ensures x in Names(g) && g[x] in Names(g)
  {
  }

  /** The walk down the chain of name, up to its end, a settled name or a name of its own. */
  method Descend(g: Graph, name: string, state0: map<string, Mark>, ghost marks0: seq<string>)
    returns (circular: bool, state: map<string, Mark>, path: seq<string>, ghost marks: seq<string>)
    requires name in g && Settled(g, state0) && state0.Keys <= Names(g) && Marked(marks0, state0)
    ensures state0.Keys <= state.Keys <= Names(g) && Marked(marks, state) && marks == marks0 + path
    ensures circular ==> Repeats(g, name)
    ensures !circular ==> Walking(g, state0, state, path) && name in state
    ensures !circular && path != [] ==>
              path[|path| - 1] in g ==> g[path[|path| - 1]] in state && g[path[|path| - 1]] in state0
  {
    state, path, marks := state0, [], marks0;
    var current, ok := name, true;
    ValueIsName(g, name);
    while ok && !(current in state && state[current].Acyclic?)
      invariant Walking(g, state0, state, path) && state0.Keys <= state.Keys <= Names(g)
      invariant Stands(g, name, path, current, ok)
      invariant ok ==> current in Names(g)
      invariant Marked(marks, state) && marks == marks0 + path
      decreases Names(g) - state.Keys
    {
      if current in state {
        ChainMeets(g, path, current);
        return true, state, path, marks;
      }
      MarkNext(g, name, state0, state, path, current);
      MarkOnce(marks, state, current);
      state := state[current := OnPath];
      marks := marks + [current];
      path := path + [current];
      if current in g { ValueIsName(g, current); current := g[current]; } else { ok := false; }
    }
    circular := false;
    if path != [] { assert path[0] in path; }
  }

  method Settle(state0: map<string, Mark>, path: seq<string>) returns (state: map<string, Mark>)
    requires forall p :: p in path ==> p in state0
    ensures state.Keys == state0.Keys
    ensures forall p :: p in state ==> state[p] == if p in path then Acyclic else state0[p]
  {
    state := state0;
    for i := 0 to |path|
      invariant state.Keys == state0.Keys
      invariant forall p :: p in state ==> state[p] == if p in path[..i] then Acyclic else state0[p]
    {
      state := state[path[i] := Acyclic];
    }
    assert path[..|path|] == path;
  }

  lemma PathEnds(g: Graph, state0: map<string, Mark>, state: map<string, Mark>, path: seq<string>)
    requires Settled(g, state0) && Walking(g, state0, state, path) && path != []
    requires path[|path| - 1] in g ==> g[path[|path| - 1]] in state0
    ensures forall p :: p in path ==> Ends(g, p)
  {
    forall p | p in path ensures Ends(g, p) {
      var i :| 0 <= i < |path| && path[i] == p;
      ChainEnds(g, path, i);
    }
  }

  datatype Verdict = Fine | Circular(name: string) | NotFound(name: string, dialer: string)

  /** An error exactly when some chain repeats a proxy, for every order of the map, naming
      a proxy whose chain does; and no name is marked on-path twice: `marks` lists the names as
      they are marked. */
  method HasCycle(g: Graph) returns (r: Verdict, ghost marks: seq<string>)
    ensures r.Fine? <==> forall x :: x in g ==> !Repeats(g, x)
    ensures !r.Fine? ==> r.Circular? && r.name in g && Repeats(g, r.name)
    ensures forall i, j :: 0 <= i < j < |marks| ==> marks[i] != marks[j]
    ensures (forall x :: x in marks ==> x in Names(g)) && |marks| <= |Names(g)|
  {
    var state: map<string, Mark> := map[];
    marks := [];
    var todo := g.Keys;
    while todo != {}
      invariant todo <= g.Keys && Settled(g, state) && state.Keys <= Names(g)
      invariant forall x :: x in g && x !in todo ==> x in state
      invariant Marked(marks, state)
    {
      var name :| name in todo;
      todo := todo - {name};
      var circular, walked, path;
      circular, walked, path, marks := Descend(g, name, state, marks);
      if circular {
        DistinctWithin(marks, Names(g));
        return Circular(name), marks;
      }
      if path != [] { PathEnds(g, state, walked, path); }
      state := Settle(walked, path);
    }
    forall x | x in g ensures !Repeats(g, x) { EndsOrRepeats(g, x); }
    DistinctWithin(marks, Names(g));
    return Fine, marks;
  }

  lemma {:induction false} DistinctWithin(l: seq<string>, s: set<string>)
    requires (forall i, j :: 0 <= i < j < |l| ==> l[i] != l[j]) && forall x :: x in l ==> x in s
    ensures |l| <= |s|
  {
    if l != [] {
      var n := |l| - 1;
      DistinctWithin(l[..n], s - {l[n]});
      assert l[n] in s;
    }
  }

  /** `validateDialerProxies`, with "" for no dialer-proxy: a dangling name is reported
      before any cycle, and nothing else is. */
  method Validate(proxies: map<string, string>) returns (r: Verdict)
    ensures r.NotFound? <==> exists x :: x in proxies && proxies[x] != "" && proxies[x] !in proxies
    ensures r.NotFound? ==> r.name in proxies && proxies[r.name] == r.dialer != "" && r.dialer !in proxies
    ensures !r.NotFound? ==> var g := map x | x in proxies && proxies[x] != "" :: proxies[x];
                             && (r.Fine? <==> forall x :: x in g ==> !Repeats(g, x))
                             && (r.Circular? ==> r.name in g && Repeats(g, r.name))
  {
    var g: Graph := map[];
    var todo := proxies.Keys;
    while todo != {}
      invariant todo <= proxies.Keys
      invariant forall x :: x in g <==> x in proxies && x !in todo && proxies[x] != ""
      invariant forall x :: x in g ==> g[x] == proxies[x] && proxies[x] in proxies
    {
      var name :| name in todo;
      todo := todo - {name};
      if proxies[name] != "" {
        if proxies[name] !in proxies { return NotFound(name, proxies[name]); }
        g := g[name := proxies[name]];
      }
    }
    assert g == map x | x in proxies && proxies[x] != "" :: proxies[x];
    ghost var marks;
    r, marks := HasCycle(g);
  }
}
