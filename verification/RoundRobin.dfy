/** The round-robin strategy of adapter/outboundgroup/loadbalance.go. */
module RoundRobin {

  ghost function AliveSet(alive: seq<bool>): set<nat> {
    set i: nat | i < |alive| && alive[i]
  }

  /** The slot i places after x, on the list seen as a ring. */
  function Slot(alive: seq<bool>, x: nat, i: nat): (s: nat)
    requires alive != []
    ensures s < |alive|
  {
    (x + i) % |alive|
  }

  predicate LiveAt(alive: seq<bool>, x: nat, i: nat)
    requires alive != []
  {
    alive[Slot(alive, x, i)]
  }

  /** How many places after x the scan stops: at the first live slot from i on, or after a
      full turn. */
  function Scan(alive: seq<bool>, x: nat, i: nat): (r: nat)
    requires alive != [] && i <= |alive|
    ensures i <= r <= |alive|
    ensures r < |alive| ==> LiveAt(alive, x, r)
    ensures forall j :: i <= j < r ==> !LiveAt(alive, x, j)
    decreases |alive| - i
  {
    if i == |alive| || LiveAt(alive, x, i) then i else Scan(alive, x, i + 1)
  }

  /** The proxy picked at index x, and the index after a pick that counts. */
  function Picked(alive: seq<bool>, x: nat): nat
    requires alive != []
  {
    var r := Scan(alive, x, 0);
    if r < |alive| then Slot(alive, x, r) else 0
  }

  function After(alive: seq<bool>, x: nat): nat
    requires alive != []
  {
    var r := Scan(alive, x, 0);
    Slot(alive, x, if r < |alive| then r + 1 else r)
  }

  class Strategy {
    var idx: nat

    constructor ()
      ensures idx == 0
    {
      idx := 0;
    }

    /** An untouched pick answers what the next touched one will, and changes nothing. */
    method Pick(alive: seq<bool>, touch: bool) returns (id: nat)
      requires alive != []
      modifies this
      ensures id == Picked(alive, old(idx))
      ensures idx == if touch then After(alive, old(idx)) else old(idx)
    {
      var i: nat := 0;
      id := 0;
      while i < |alive|
        invariant i <= |alive| && id == 0
        invariant Scan(alive, idx, 0) == Scan(alive, idx, i)
      {
        if alive[(idx + i) % |alive|] {
          id := (idx + i) % |alive|;
          i := i + 1;
          break;
        }
        i := i + 1;
      }
      if touch { idx := (idx + i) % |alive|; }
    }
  }

  /** The answers of k consecutive touched picks from index x. */
  function Picks(alive: seq<bool>, x: nat, k: nat): (r: seq<nat>)
    requires alive != []
    ensures |r| == k
    decreases k
  {
    if k == 0 then [] else [Picked(alive, x)] + Picks(alive, After(alive, x), k - 1)
  }

  // -------------------------------------------------------------- remainders on a ring

  lemma Remainder(x: nat, n: nat, q: nat, r: nat)
    requires n >= 1 && x == n * q + r && r < n
    ensures x % n == r
  {
    var d := q - x / n;
    assert n * d == x % n - r;
    if d >= 1 { Scaled(n, d); }
    if d <= -1 { Scaled(n, -d); }
  }

  lemma Scaled(n: nat, d: nat)
    requires d >= 1
    ensures n * d >= n
  {
    assert n * (d - 1) >= 0;
  }

  /** Moving the start and then stepping is stepping further. */
  lemma SlotFrom(alive: seq<bool>, x: nat, a: nat, b: nat)
    requires alive != []
    ensures Slot(alive, Slot(alive, x, a), b) == Slot(alive, x, a + b)
  {
    var n := |alive|;
    var q, r := (x + a) / n, (x + a) % n;
    var q', r' := (r + b) / n, (r + b) % n;
    assert x + a + b == n * (q + q') + r';
    Remainder(x + a + b, n, q + q', r');
  }

  // ------------------------------------------------------------------------- fairness

  /** The live slots met in one turn from x, from the o-th place on. */
  ghost function Turn(alive: seq<bool>, x: nat, o: nat): seq<nat>
    requires alive != [] && o <= |alive|
    decreases |alive| - o
  {
    if o == |alive| then []
    else (if LiveAt(alive, x, o) then [Slot(alive, x, o)] else []) + Turn(alive, x, o + 1)
  }

  /** Starting at a dead slot is starting one later, as long as something is alive. */
  lemma SkipDead(alive: seq<bool>, x: nat, o: nat, w: nat)
    requires alive != [] && !LiveAt(alive, x, o) && o < w < |alive| && LiveAt(alive, x, w)
    ensures Picked(alive, Slot(alive, x, o)) == Picked(alive, Slot(alive, x, o + 1))
    ensures After(alive, Slot(alive, x, o)) == After(alive, Slot(alive, x, o + 1))
  {
    var y, z := Slot(alive, x, o), Slot(alive, x, o + 1);
    var r, t := Scan(alive, y, 0), Scan(alive, z, 0);
    SlotFrom(alive, x, o, 0); SlotFrom(alive, x, o, w - o); SlotFrom(alive, x, o + 1, w - o - 1);
    assert !LiveAt(alive, y, 0) && LiveAt(alive, y, w - o) && LiveAt(alive, z, w - o - 1);
    assert 0 < r <= w - o && t <= w - o - 1;
    SlotFrom(alive, x, o, r); SlotFrom(alive, x, o + 1, r - 1);
    SlotFrom(alive, x, o + 1, t); SlotFrom(alive, x, o, t + 1);
    assert LiveAt(alive, z, r - 1) && LiveAt(alive, y, t + 1);
    assert r == t + 1;
    SlotFrom(alive, x, o, r + 1); SlotFrom(alive, x, o + 1, t + 1);
  }

  lemma {:induction false} TurnMember(alive: seq<bool>, x: nat, o: nat)
    requires alive != [] && o <= |alive| && Turn(alive, x, o) != []
    ensures exists w :: o <= w < |alive| && LiveAt(alive, x, w)
    decreases |alive| - o
  {
    if !LiveAt(alive, x, o) { TurnMember(alive, x, o + 1); }
  }

  lemma TakeLive(alive: seq<bool>, x: nat, o: nat)
    requires alive != [] && LiveAt(alive, x, o)
    ensures Picked(alive, Slot(alive, x, o)) == Slot(alive, x, o)
    ensures After(alive, Slot(alive, x, o)) == Slot(alive, x, o + 1)
  {
    SlotFrom(alive, x, o, 0);
    SlotFrom(alive, x, o, 1);
    assert LiveAt(alive, Slot(alive, x, o), 0);
  }

  lemma SameStart(alive: seq<bool>, y: nat, z: nat, k: nat)
    requires alive != [] && Picked(alive, y) == Picked(alive, z) && After(alive, y) == After(alive, z)
    ensures Picks(alive, y, k) == if k == 0 then [] else Picks(alive, z, k)
  {
  }

  /** Touched picks walk the live slots of the turn in order. */
  lemma {:induction false} PicksWalkTheTurn(alive: seq<bool>, x: nat, o: nat, k: nat)
    requires alive != [] && o <= |alive| && k <= |Turn(alive, x, o)|
    ensures Picks(alive, Slot(alive, x, o), k) == Turn(alive, x, o)[..k]
    decreases |alive| - o
  {
    if k > 0 {
      if LiveAt(alive, x, o) {
        PicksWalkTheTurn(alive, x, o + 1, k - 1);
        LiveStep(alive, x, o, k);
      } else {
        PicksWalkTheTurn(alive, x, o + 1, k);
        DeadStep(alive, x, o, k);
      }
    }
  }

  lemma LiveStep(alive: seq<bool>, x: nat, o: nat, k: nat)
    requires alive != [] && o < |alive| && 0 < k <= |Turn(alive, x, o)| && LiveAt(alive, x, o)
    requires Picks(alive, Slot(alive, x, o + 1), k - 1) == Turn(alive, x, o + 1)[..k - 1]
    ensures Picks(alive, Slot(alive, x, o), k) == Turn(alive, x, o)[..k]
  {
    TakeLive(alive, x, o);
    var s, t := Slot(alive, x, o), Turn(alive, x, o + 1);
    assert Turn(alive, x, o) == [s] + t;
    assert Picks(alive, s, k) == [s] + t[..k - 1];
  }

  lemma DeadStep(alive: seq<bool>, x: nat, o: nat, k: nat)
    requires alive != [] && o < |alive| && 0 < k <= |Turn(alive, x, o)| && !LiveAt(alive, x, o)
    requires Picks(alive, Slot(alive, x, o + 1), k) == Turn(alive, x, o + 1)[..k]
    ensures Picks(alive, Slot(alive, x, o), k) == Turn(alive, x, o)[..k]
  {
    TurnMember(alive, x, o + 1);
    var w :| o + 1 <= w < |alive| && LiveAt(alive, x, w);
    SkipDead(alive, x, o, w);
    SameStart(alive, Slot(alive, x, o), Slot(alive, x, o + 1), k);
    assert Turn(alive, x, o) == Turn(alive, x, o + 1);
  }

  /** How many places after x the slot id lies. */
  function Place(n: nat, x: nat, id: nat): nat
    requires x < n && id < n
  {
    if id >= x then id - x else id + n - x
  }

  lemma SlotAtPlace(alive: seq<bool>, x: nat, w: nat, id: nat)
    requires x < |alive| && w < |alive| && id < |alive|
    ensures Slot(alive, x, w) == id <==> w == Place(|alive|, x, id)
  {
    if x + w < |alive| { Remainder(x + w, |alive|, 0, x + w); } else { Remainder(x + w, |alive|, 1, x + w - |alive|); }
  }

  lemma {:induction false} TurnCounts(alive: seq<bool>, x: nat, o: nat, id: nat)
    requires x < |alive| && o <= |alive|
    ensures multiset(Turn(alive, x, o))[id] ==
            if id < |alive| && alive[id] && o <= Place(|alive|, x, id) then 1 else 0
    decreases |alive| - o
  {
    if o < |alive| {
      TurnCounts(alive, x, o + 1, id);
      if id < |alive| { SlotAtPlace(alive, x, o, id); }
    }
  }

  lemma TurnIsAliveSet(alive: seq<bool>, x: nat)
    requires x < |alive|
    ensures multiset(Turn(alive, x, 0)) == multiset(AliveSet(alive))
    ensures |Turn(alive, x, 0)| == |AliveSet(alive)|
  {
    forall id: nat ensures multiset(Turn(alive, x, 0))[id] == multiset(AliveSet(alive))[id] {
      TurnCounts(alive, x, 0, id);
    }
    assert |multiset(Turn(alive, x, 0))| == |Turn(alive, x, 0)|;
  }

  lemma StartWraps(alive: seq<bool>, x: nat, k: nat)
    requires alive != []
    ensures Picks(alive, x, k) == Picks(alive, Slot(alive, x, 0), k)
    ensures k > 0 ==>
              Picked(alive, x) == Picked(alive, Slot(alive, x, 0)) && After(alive, x) == After(alive, Slot(alive, x, 0))
  {
    if k > 0 {
      ScanWraps(alive, x, 0);
      SlotFrom(alive, x, 0, Scan(alive, x, 0));
      SlotFrom(alive, x, 0, Scan(alive, x, 0) + 1);
    }
  }

  lemma {:induction false} ScanWraps(alive: seq<bool>, x: nat, i: nat)
    requires alive != [] && i <= |alive|
    ensures Scan(alive, x, i) == Scan(alive, Slot(alive, x, 0), i)
    decreases |alive| - i
  {
    SlotFrom(alive, x, 0, i);
    if i < |alive| { ScanWraps(alive, x, i + 1); }
  }

  /** From any starting index, as many consecutive touched picks as there are live
      proxies return each live proxy exactly once. */
  lemma OneRoundIsFair(alive: seq<bool>, x: nat)
    requires alive != []
    ensures multiset(Picks(alive, x, |AliveSet(alive)|)) == multiset(AliveSet(alive))
  {
    TurnIsAliveSet(alive, Slot(alive, x, 0));
    PicksAreTheTurn(alive, x);
  }

  lemma PicksAreTheTurn(alive: seq<bool>, x: nat)
    requires alive != []
    ensures var t := Turn(alive, Slot(alive, x, 0), 0); Picks(alive, x, |t|) == t
  {
    var y := Slot(alive, x, 0);
    var t := Turn(alive, y, 0);
    StartWraps(alive, x, |t|);
    SlotFrom(alive, x, 0, 0);
    PicksWalkTheTurn(alive, y, 0, |t|);
    assert t[..|t|] == t;
  }

  function IndexAfter(alive: seq<bool>, x: nat, k: nat): nat
    requires alive != []
    decreases k
  {
    if k == 0 then x else IndexAfter(alive, After(alive, x), k - 1)
  }

  /** How many of k consecutive touched picks return `id`. */
  function Times(alive: seq<bool>, x: nat, k: nat, id: nat): nat
    requires alive != []
    decreases k
  {
    if k == 0 then 0 else (if Picked(alive, x) == id then 1 else 0) + Times(alive, After(alive, x), k - 1, id)
  }

  lemma {:induction false} TimesCount(alive: seq<bool>, x: nat, k: nat, id: nat)
    requires alive != []
    ensures Times(alive, x, k, id) == multiset(Picks(alive, x, k))[id]
    decreases k
  {
    if k > 0 {
      var y := After(alive, x);
      var rest := Picks(alive, y, k - 1);
      TimesCount(alive, y, k - 1, id);
      ConsCount(Picked(alive, x), rest, id);
    }
  }

  lemma ConsCount(a: nat, rest: seq<nat>, id: nat)
    ensures multiset([a] + rest)[id] == (if a == id then 1 else 0) + multiset(rest)[id]
  {
  }

  lemma {:induction false} TimesSplit(alive: seq<bool>, x: nat, a: nat, b: nat, id: nat)
    requires alive != []
    ensures Times(alive, x, a + b, id) == Times(alive, x, a, id) + Times(alive, IndexAfter(alive, x, a), b, id)
    decreases a
  {
    if a > 0 { TimesSplit(alive, After(alive, x), a - 1, b, id); }
  }

  function Total(k: nat, m: nat): nat { if m == 0 then 0 else k + Total(k, m - 1) }

  lemma {:induction false} TotalIsProduct(k: nat, m: nat)
    ensures Total(k, m) == m * k
  {
    if m > 0 { TotalIsProduct(k, m - 1); }
  }

  lemma OncePerRound(alive: seq<bool>, x: nat, id: nat)
    requires alive != []
    ensures Times(alive, x, |AliveSet(alive)|, id) == if id in AliveSet(alive) then 1 else 0
  {
    TimesCount(alive, x, |AliveSet(alive)|, id);
    OneRoundIsFair(alive, x);
  }

  lemma {:induction false} RoundByRound(alive: seq<bool>, x: nat, k: nat, m: nat, id: nat)
    requires alive != [] && k == |AliveSet(alive)|
    ensures Times(alive, x, Total(k, m), id) == if id in AliveSet(alive) then m else 0
    decreases m
  {
    if m > 0 {
      TimesSplit(alive, x, k, Total(k, m - 1), id);
      OncePerRound(alive, x, id);
      RoundByRound(alive, IndexAfter(alive, x, k), k, m - 1, id);
    }
  }

  /** Over m rounds every live proxy is picked m times and no dead one ever. */
  lemma RoundsAreFair(alive: seq<bool>, x: nat, m: nat, id: nat)
    requires alive != []
    ensures multiset(Picks(alive, x, m * |AliveSet(alive)|))[id] == if id in AliveSet(alive) then m else 0
  {
    TotalIsProduct(|AliveSet(alive)|, m);
    RoundByRound(alive, x, |AliveSet(alive)|, m, id);
    TimesCount(alive, x, m * |AliveSet(alive)|, id);
  }

  /** The proxy k places from the start of the list, going round, is alive. */
  predicate AliveOnRing(alive: seq<bool>, k: nat)
    requires alive != []
  {
    alive[k % |alive|]
  }

  /** A pick is the first live proxy at or after the index, going round, and the index moves just
      past it; with none alive it is the first of the list. */
  lemma PickedIsNextLive(alive: seq<bool>, x: nat) returns (k: nat)
    requires alive != []
    ensures x <= k <= x + |alive| && forall j :: x <= j < k ==> !AliveOnRing(alive, j)
    ensures if k == x + |alive| then Picked(alive, x) == 0 && After(alive, x) == k % |alive|
            else AliveOnRing(alive, k) && Picked(alive, x) == k % |alive| && After(alive, x) == (k + 1) % |alive|
  {
    var i := Scan(alive, x, 0);
    k := x + i;
    forall j | x <= j < k ensures !AliveOnRing(alive, j) { assert !LiveAt(alive, x, j - x); }
  }
}
