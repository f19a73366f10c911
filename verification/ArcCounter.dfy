/** The counter behind `Len`, whose documentation promises the number of cached entries.
    Deleting a ghost, or evicting a ghost from t2, discounts an entry that was already
    discounted when it became a ghost; this module says exactly by how much `len` is off. */
module ArcCounter {
  import opened ArcModel
  import opened ArcProofs
  import opened ArcRuns

  ghost function Live<K(!new), V>(m: map<K, Entry<V>>): set<K> {
    set k | k in m && !m[k].dead
  }

  /** The live entries that `len` does not count. */
  ghost function Drift<K(!new), V>(s: Cache<K, V>): int { |Live(s.entries)| - s.len }

  function One(b: bool): int { if b then 1 else 0 }

  predicate IsLive<K(==), V>(m: map<K, Entry<V>>, k: K) { k in m && !m[k].dead }

  lemma LivePut<K(!new), V>(m: map<K, Entry<V>>, k: K, e: Entry<V>)
    ensures |Live(m[k := e])| == |Live(m)| - One(IsLive(m, k)) + One(!e.dead)
  {
    var a, b := Live(m), Live(m[k := e]);
    assert b - {k} == a - {k};
    assert |a - {k}| == |a| - One(k in a) && |b - {k}| == |b| - One(k in b);
  }

  lemma LiveDrop<K(!new), V>(m: map<K, Entry<V>>, k: K)
    ensures |Live(m - {k})| == |Live(m)| - One(IsLive(m, k))
  {
    assert Live(m - {k}) == Live(m) - {k};
  }

  /** Whether the victim of `replace` is already a ghost. */
  predicate VictimDead<K(==), V>(s: Cache<K, V>, fromB2: bool) {
    if TakesT1(s, fromB2) then !IsLive(s.entries, Last(s.t1))
    else s.t2 != [] && !IsLive(s.entries, Last(s.t2))
  }

  lemma ReplaceDrift<K(!new), V>(s: Cache<K, V>, fromB2: bool, zero: V)
    requires TakesT1(s, fromB2) || s.t2 != []
    ensures Replace(s, fromB2, zero).Done?
    ensures Drift(Replace(s, fromB2, zero).value) == Drift(s) + One(VictimDead(s, fromB2))
  {
    var k := Last(if TakesT1(s, fromB2) then s.t1 else s.t2);
    LivePut(s.entries, k, Vacate(s.entries, k, zero, if TakesT1(s, fromB2) then B1 else B2)[k]);
  }

  lemma DelDrift<K(!new), V>(s: Cache<K, V>, w: Place)
    requires w.T1? || w.B1? || w.B2?
    requires Filed(s) && Marked(s.entries) && DelLRU(s, w).Done?
    ensures Drift(DelLRU(s, w).value) == Drift(s) + One(!w.T1?)
  {
    var l := match w case T1 => s.t1 case B1 => s.b1 case B2 => s.b2;
    assert Last(l) in l;
    LiveDrop(s.entries, Last(l));
  }

  /** The list from which making room deletes, or Nowhere. */
  function Deletes<K, V>(s: Cache<K, V>): Place {
    if |s.t1| + |s.b1| == s.c then (if |s.t1| < s.c then B1 else T1)
    else if |s.t1| + |s.b1| < s.c && Total(s) == 2 * s.c then B2
    else Nowhere
  }

  /** How many ghosts a request for k discounts a second time, read off the state before
      the call. */
  function Waste<K(==), V>(s: Cache<K, V>, k: K): int {
    if k !in s.entries then
      One(Deletes(s).B1? || Deletes(s).B2?) + One(|s.t1| < s.c && Total(s) >= s.c && VictimDead(s, false))
    else if s.entries[k].ll.B1? then VictimWaste(Tuned(s, true), true)
    else if s.entries[k].ll.B2? then VictimWaste(Tuned(s, false), false)
    else 0
  }

  function VictimWaste<K(==), V>(s: Outcome<Cache<K, V>>, inB1: bool): int {
    if s.Done? then One(VictimDead(s.value, !inB1)) else 0
  }

  function OpWaste<K(==), V>(s: Cache<K, V>, op: Op<K, V>): int {
    match op
    case SetOp(k, _, _) => Waste(s, k)
    case GetOp(k) => if k in s.entries then Waste(s, k) else 0
    case ClearOp => 0
  }

  lemma VictimUnchanged<K(!new), V>(s: Cache<K, V>, w: Place)
    requires Filed(s) && (w.B1? || w.B2?) && DelLRU(s, w).Done?
    ensures VictimDead(DelLRU(s, w).value, false) == VictimDead(s, false)
  {
    var l := if w.B1? then s.b1 else s.b2;
    assert Last(l) in l;
    if s.t1 != [] { assert Last(s.t1) in s.t1; }
    if s.t2 != [] { assert Last(s.t2) in s.t2; }
  }

  lemma MakeRoomDrift<K(!new), V>(s: Cache<K, V>, k: K, zero: V)
    requires Inv(s) && k !in s.entries
    ensures MakeRoom(s, zero).Done?
    ensures Drift(MakeRoom(s, zero).value) == Drift(s) + Waste(s, k)
  {
    MakeRoomSizes(s, zero, k);
    var w := Deletes(s);
    var s1 := s;
    if !w.Nowhere? {
      DelDrift(s, w);
      s1 := DelLRU(s, w).value;
      if !w.T1? { VictimUnchanged(s, w); }
    }
    if |s.t1| < s.c && Total(s) >= s.c { ReplaceDrift(s1, false, zero); }
  }

  lemma HitGhostDrift<K(!new), V>(s: Cache<K, V>, k: K, e: Entry<V>, zero: V)
    requires Sized(s) && Filed(s) && k in s.entries && e.ll == s.entries[k].ll && (e.ll.B1? || e.ll.B2?)
    ensures HitGhost(s, k, e, zero).Done?
    ensures Drift(HitGhost(s, k, e, zero).value) == Drift(s) + Waste(s, k) + One(!e.dead) - One(IsLive(s.entries, k))
  {
    ReqPlaced(s, k);
    HitGhostSizes(s, k, e, zero);
    var s0 := Tuned(s, e.ll.B1?).value;
    VictimOther(s0, e.ll.B2?, k);
    ReplaceDrift(s0, e.ll.B2?, zero);
    LivePut(Replace(s0, e.ll.B2?, zero).value.entries, k, e.(ll := T2));
  }

  /** The victim of `replace` is not an entry of b1 or b2. */
  lemma VictimOther<K(!new), V>(s: Cache<K, V>, fromB2: bool, k: K)
    requires Filed(s) && k in s.entries && (s.entries[k].ll.B1? || s.entries[k].ll.B2?)
    ensures s.t1 != [] ==> Last(s.t1) != k
    ensures s.t2 != [] ==> Last(s.t2) != k
  {
    if s.t1 != [] { assert Last(s.t1) in s.t1; }
    if s.t2 != [] { assert Last(s.t2) in s.t2; }
  }

  lemma SameWaste<K(!new), V>(s: Cache<K, V>, k: K, e: Entry<V>)
    requires Inv(s) && (k in s.entries ==> e.ll == s.entries[k].ll)
    ensures Waste(Written(s, k, e), k) == Waste(s, k)
  {
    if s.t1 != [] { assert Last(s.t1) in s.t1; }
    if s.t2 != [] { assert Last(s.t2) in s.t2; }
  }

  /** Set and Get widen the gap between the live entries and `len` by exactly the ghosts
      they discount again. */
  lemma StepDrift<K(!new), V>(s: Cache<K, V>, op: Op<K, V>, zero: V)
    requires Inv(s) && !op.ClearOp?
    ensures Do(s, op, zero).Done?
    ensures Drift(Do(s, op, zero).value) == Drift(s) + OpWaste(s, op)
  {
    var k := op.k;
    if op.SetOp? {
      var e := SetEntry(s, k, op.v, op.expires);
      var s0 := Written(s, k, e);
      WrittenFiled(s, k, e);
      LivePut(s.entries, k, e);
      SameWaste(s, k, e);
      if k !in s.entries {
        MakeRoomDrift(s0, k, zero);
        MakeRoomEntries(s0, zero, k);
        LivePut(MakeRoom(s0, zero).value.entries, k, e.(ll := T1));
      } else if e.ll.B1? || e.ll.B2? {
        HitGhostDrift(s0, k, e, zero);
      } else {
        assert k !in [];
        LivePut(s0.entries, k, e.(ll := T2));
      }
    } else if k in s.entries {
      var e := s.entries[k];
      if e.ll.B1? || e.ll.B2? {
        HitGhostDrift(s, k, e, zero);
      } else {
        assert k !in [];
        LivePut(s.entries, k, e.(ll := T2));
      }
    }
  }

  /** The discounts of a whole run; Clear starts again at none. */
  function RunWaste<K(==), V>(c: int, ops: seq<Op<K, V>>, zero: V): int {
    if ops == [] then 0
    else
      var before := ops[..|ops| - 1];
      match Run(c, before, zero)
      case Panic => 0
      case Done(s) => if ops[|ops| - 1].ClearOp? then 0 else RunWaste(c, before, zero) + OpWaste(s, ops[|ops| - 1])
  }

  /** Over every run `len` is the number of live entries less the ghosts discounted
      twice: it never exceeds that number, and equals it if and only if there were none. */
  lemma {:induction false} LenIsLiveLessWaste<K(!new), V>(c: int, ops: seq<Op<K, V>>, zero: V)
    requires c >= 1
    ensures Run(c, ops, zero).Done?
    ensures var s := Run(c, ops, zero).value;
            && s.len == |Live(s.entries)| - RunWaste(c, ops, zero)
            && RunWaste(c, ops, zero) >= 0
            && (s.len == |Live(s.entries)| <==> RunWaste(c, ops, zero) == 0)
  {
    RunKeeps(c, ops, zero);
    if ops != [] {
      var before := ops[..|ops| - 1];
      RunKeeps(c, before, zero);
      LenIsLiveLessWaste(c, before, zero);
      if !ops[|ops| - 1].ClearOp? {
        StepDrift(Run(c, before, zero).value, ops[|ops| - 1], zero);
      }
    }
  }

  /** No more than `c` entries are live at any time. */
  lemma LiveWithinCapacity<K(!new), V>(c: int, ops: seq<Op<K, V>>, zero: V)
    requires c >= 1
    ensures Run(c, ops, zero).Done? && |Live(Run(c, ops, zero).value.entries)| <= c
  {
    RunKeeps(c, ops, zero);
    var s := Run(c, ops, zero).value;
    assert forall k :: k in Live(s.entries) ==> k !in [] && k in s.t1 + s.t2;
    SubsetOfSeq(Live(s.entries), s.t1 + s.t2);
  }

  lemma {:induction false} SubsetOfSeq<K(!new)>(a: set<K>, l: seq<K>)
    requires forall k :: k in a ==> k in l
    ensures |a| <= |l|
  {
    if l == [] {
      assert a == {};
    } else {
      SubsetOfSeq(a - {l[0]}, l[1..]);
    }
  }

  /** The documented meaning of `Len` fails: five calls on a cache of capacity 1 leave one
      live entry and a `len` of -1. */
  lemma LenCanBeNegative()
    ensures var ops := [SetOp(1, "a", 9), GetOp(1), SetOp(2, "b", 9), GetOp(1), SetOp(3, "c", 9)];
            && Run(1, ops, "").Done? && Run(1, ops, "").value.len == -1
            && Live(Run(1, ops, "").value.entries) == {3}
  {
    var ops: seq<Op<int, string>> := [SetOp(1, "a", 9), GetOp(1), SetOp(2, "b", 9), GetOp(1), SetOp(3, "c", 9)];
    FirstThree();
    var s3 := Cache(1, 0, 1, [2], [], [], [1], map[1 := Entry("", true, 9, B2), 2 := Entry("b", false, 9, T1)]);
    var s4 := Cache(1, 0, 0, [], [2], [1], [], map[1 := Entry("", true, 9, T2), 2 := Entry("", true, 9, B1)]);
    var s5 := Cache(1, 0, -1, [3], [], [], [1], map[1 := Entry("", true, 9, B2), 3 := Entry("c", false, 9, T1)]);
    Fourth();
    Fifth();
    assert ops[..3] == [SetOp(1, "a", 9), GetOp(1), SetOp(2, "b", 9)];
    Extend(1, ops, 3, s3, s4, "");
    Extend(1, ops, 4, s4, s5, "");
    assert ops[..5] == ops;
    assert Live(s5.entries) == {3};
  }

  lemma Fourth()
    ensures Do(Cache(1, 0, 1, [2], [], [], [1], map[1 := Entry("", true, 9, B2), 2 := Entry("b", false, 9, T1)]),
          GetOp(1), "")
         == Done(Cache(1, 0, 0, [], [2], [1], [], map[1 := Entry("", true, 9, T2), 2 := Entry("", true, 9, B1)]))
  {
    var s3 := Cache(1, 0, 1, [2], [], [], [1], map[1 := Entry("", true, 9, B2), 2 := Entry("b", false, 9, T1)]);
    Same(Do(s3, GetOp(1), "").value, Cache(1, 0, 0, [], [2], [1], [],
        map[1 := Entry("", true, 9, T2), 2 := Entry("", true, 9, B1)]));
  }

  lemma Fifth()
    ensures Do(Cache(1, 0, 0, [], [2], [1], [], map[1 := Entry("", true, 9, T2), 2 := Entry("", true, 9, B1)]),
          SetOp(3, "c", 9), "")
         == Done(Cache(1, 0, -1, [3], [], [], [1], map[1 := Entry("", true, 9, B2), 3 := Entry("c", false, 9, T1)]))
  {
    var s4 := Cache(1, 0, 0, [], [2], [1], [], map[1 := Entry("", true, 9, T2), 2 := Entry("", true, 9, B1)]);
    Same(Do(s4, SetOp(3, "c", 9), "").value, Cache(1, 0, -1, [3], [], [], [1],
        map[1 := Entry("", true, 9, B2), 3 := Entry("c", false, 9, T1)]));
  }

  lemma FirstThree()
    ensures Run(1, [SetOp(1, "a", 9), GetOp(1), SetOp(2, "b", 9)], "")
         == Done(Cache(1, 0, 1, [2], [], [], [1], map[1 := Entry("", true, 9, B2), 2 := Entry("b", false, 9, T1)]))
  {
    var ops: seq<Op<int, string>> := [SetOp(1, "a", 9), GetOp(1), SetOp(2, "b", 9)];
    var s1 := Cache(1, 0, 1, [1], [], [], [], map[1 := Entry("a", false, 9, T1)]);
    var s2 := Cache(1, 0, 1, [], [], [1], [], map[1 := Entry("a", false, 9, T2)]);
    var s3 := Cache(1, 0, 1, [2], [], [], [1], map[1 := Entry("", true, 9, B2), 2 := Entry("b", false, 9, T1)]);
    Same(Do(Init(1), ops[0], "").value, s1);
    Same(Do(s1, ops[1], "").value, s2);
    Same(Do(s2, ops[2], "").value, s3);
    Extend(1, ops, 0, Init(1), s1, "");
    Extend(1, ops, 1, s1, s2, "");
    Extend(1, ops, 2, s2, s3, "");
    assert ops[..3] == ops;
  }

  lemma Extend<K, V>(c: int, ops: seq<Op<K, V>>, i: nat, s: Cache<K, V>, s': Cache<K, V>, zero: V)
    requires i < |ops| && Run(c, ops[..i], zero) == Done(s) && Do(s, ops[i], zero) == Done(s')
    ensures Run(c, ops[..i + 1], zero) == Done(s')
  {
    assert ops[..i + 1][..i] == ops[..i];
  }
}
