/** What every request keeps, and what a whole run of requests promises. */
module ArcProofs {
  import opened ArcModel

  // ------------------------------------------------- one list, one change of the map

  lemma {:induction false} RemoveMembers<K>(s: seq<K>, k: K)
    requires NoDup(s)
    ensures NoDup(Remove(s, k)) && k !in Remove(s, k)
    ensures forall j :: j in Remove(s, k) <==> j in s && j != k
  {
    if s != [] {
      assert s == [s[0]] + s[1..];
      RemoveMembers(s[1..], k);
      assert s[0] !in s[1..];
    }
  }

  lemma PushFront<K(!new), V>(l: seq<K>, at: Place, m: map<K, Entry<V>>, k: K, e: Entry<V>)
    requires Holds(l, at, m) && e.ll == at && k !in l
    ensures Holds([k] + l, at, m[k := e])
  {
  }

  lemma PopBack<K(!new), V>(l: seq<K>, at: Place, m: map<K, Entry<V>>, e: Entry<V>)
    requires Holds(l, at, m) && l != [] && e.ll != at
    ensures Holds(l[..|l| - 1], at, m[Last(l) := e])
    ensures Holds(l[..|l| - 1], at, m - {Last(l)})
  {
    var r := l[..|l| - 1];
    assert l == r + [Last(l)];
  }

  lemma Unlink<K(!new), V>(l: seq<K>, at: Place, m: map<K, Entry<V>>, k: K, e: Entry<V>)
    requires Holds(l, at, m)
    ensures e.ll != at ==> Holds(Remove(l, k), at, m[k := e])
    ensures e.ll == at ==> Holds([k] + Remove(l, k), at, m[k := e])
  {
    RemoveMembers(l, k);
  }

  lemma Elsewhere<K(!new), V>(l: seq<K>, at: Place, m: map<K, Entry<V>>, k: K, e: Entry<V>)
    requires Holds(l, at, m) && k !in l
    ensures e.ll != at ==> Holds(l, at, m[k := e])
    ensures Holds(l, at, m - {k})
  {
  }

  // ------------------------------------------------------------------ the four moves

  /** What a step does to every entry but the requested one. */
  ghost predicate Spares<K(!new), V>(m: map<K, Entry<V>>, m': map<K, Entry<V>>, x: K)
  {
    forall k :: k in m' && k != x ==> k in m && (m'[k] == m[k] || m'[k].dead)
  }

  /** Marks, except for the key whose request is under way. */
  ghost predicate MarkedBut<K(!new), V>(m: map<K, Entry<V>>, x: K)
  {
    forall k :: k in m && k != x ==> (m[k].ll.T1? ==> !m[k].dead) && (m[k].ll.B1? || m[k].ll.B2? ==> m[k].dead)
  }

  lemma ReplaceFiled<K(!new), V>(s: Cache<K, V>, fromB2: bool, zero: V)
    requires Filed(s) && (TakesT1(s, fromB2) || s.t2 != [])
    ensures Replace(s, fromB2, zero).Done? && Filed(Replace(s, fromB2, zero).value)
  {
    var l := if TakesT1(s, fromB2) then s.t1 else s.t2;
    var k := Last(l);
    var m := Vacate(s.entries, k, zero, if TakesT1(s, fromB2) then B1 else B2);
    assert k in l;
    if TakesT1(s, fromB2) {
      PopBack(s.t1, T1, s.entries, m[k]);
      PushFront(s.b1, B1, s.entries, k, m[k]);
      Elsewhere(s.t2, T2, s.entries, k, m[k]);
      Elsewhere(s.b2, B2, s.entries, k, m[k]);
    } else {
      PopBack(s.t2, T2, s.entries, m[k]);
      PushFront(s.b2, B2, s.entries, k, m[k]);
      Elsewhere(s.t1, T1, s.entries, k, m[k]);
      Elsewhere(s.b1, B1, s.entries, k, m[k]);
    }
    Elsewhere([], Nowhere, s.entries, k, m[k]);
  }

  lemma DelFiled<K(!new), V>(s: Cache<K, V>, w: Place)
    requires Filed(s) && (w.T1? || w.B1? || w.B2?)
    requires match w case T1 => s.t1 != [] case B1 => s.b1 != [] case B2 => s.b2 != []
    ensures DelLRU(s, w).Done? && Filed(DelLRU(s, w).value)
  {
    var l := match w case T1 => s.t1 case B1 => s.b1 case B2 => s.b2;
    var k := Last(l);
    assert k in l;
    var e := s.entries[k];
    PopBack(l, w, s.entries, e.(ll := Nowhere));
    if !w.T1? { Elsewhere(s.t1, T1, s.entries, k, e); }
    if !w.B1? { Elsewhere(s.b1, B1, s.entries, k, e); }
    if !w.B2? { Elsewhere(s.b2, B2, s.entries, k, e); }
    Elsewhere(s.t2, T2, s.entries, k, e);
  }

  lemma ToT2Filed<K(!new), V>(s: Cache<K, V>, k: K, e: Entry<V>)
    requires Filed(s) && k in s.entries && e.ll == s.entries[k].ll
    ensures Filed(ToT2(s, k, e))
  {
    var e' := e.(ll := T2);
    Unlink(s.t1, T1, s.entries, k, e');
    Unlink(s.b1, B1, s.entries, k, e');
    Unlink(s.t2, T2, s.entries, k, e');
    Unlink(s.b2, B2, s.entries, k, e');
    if !e.ll.T1? { Elsewhere(s.t1, T1, s.entries, k, e'); }
    if !e.ll.B1? { Elsewhere(s.b1, B1, s.entries, k, e'); }
    if !e.ll.B2? { Elsewhere(s.b2, B2, s.entries, k, e'); }
    if !e.ll.T2? { PushFront(s.t2, T2, s.entries, k, e'); }
    Elsewhere([], Nowhere, s.entries, k, e');
  }

  lemma ToT1Filed<K(!new), V>(s: Cache<K, V>, k: K, e: Entry<V>)
    requires Filed(s) && k !in s.entries
    ensures Filed(ToT1(s, k, e))
  {
    var e' := e.(ll := T1);
    PushFront(s.t1, T1, s.entries, k, e');
    Elsewhere(s.b1, B1, s.entries, k, e');
    Elsewhere(s.t2, T2, s.entries, k, e');
    Elsewhere(s.b2, B2, s.entries, k, e');
    Elsewhere([], Nowhere, s.entries, k, e');
  }

  // ----------------------------------------------------------------------- sizes alone

  lemma ReplaceSizes<K, V>(s: Cache<K, V>, fromB2: bool, zero: V, x: K)
    requires TakesT1(s, fromB2) || s.t2 != []
    ensures Replace(s, fromB2, zero).Done?
    ensures var s' := Replace(s, fromB2, zero).value;
            && s'.c == s.c && s'.p == s.p
            && |s'.t1| + |s'.t2| == |s.t1| + |s.t2| - 1 && |s'.t1| + |s'.b1| == |s.t1| + |s.b1|
            && Total(s') == Total(s) && |s'.b1| + |s'.b2| == |s.b1| + |s.b2| + 1
            && (x in s.b1 ==> x in s'.b1) && (x in s.b2 ==> x in s'.b2)
  {
  }

  lemma AdaptPositive(own: nat, other: nat)
    requires own >= 1
    ensures Adapt(own, other).Done? && Adapt(own, other).value >= 1
  {
  }

  /** Cases II and III never divide by zero and never find t2 empty. */
  lemma HitGhostSizes<K, V>(s: Cache<K, V>, k: K, e: Entry<V>, zero: V)
    requires Sized(s) && (if e.ll.B1? then k in s.b1 else e.ll.B2? && k in s.b2)
    ensures HitGhost(s, k, e, zero).Done? && Sized(HitGhost(s, k, e, zero).value)
  {
    AdaptPositive(if e.ll.B1? then |s.b1| else |s.b2|, if e.ll.B1? then |s.b2| else |s.b1|);
    var s0 := Tuned(s, e.ll.B1?).value;
    ReplaceSizes(s0, e.ll.B2?, zero, k);
  }

  /** Room is made without taking the back of an empty list. */
  lemma MakeRoomSizes<K, V>(s: Cache<K, V>, zero: V, x: K)
    requires Sized(s)
    ensures MakeRoom(s, zero).Done?
    ensures var s' := MakeRoom(s, zero).value;
            && s'.c == s.c && s'.p == s.p
            && |s'.t1| + |s'.t2| < s.c && |s'.t1| + |s'.b1| < s.c && Total(s') < 2 * s.c
            && (s'.b1 != [] || s'.b2 != [] ==> |s'.t1| + |s'.t2| == s.c - 1)
  {
    if |s.t1| < s.c && Total(s) >= s.c {
      var s1 := if |s.t1| + |s.b1| == s.c then DelLRU(s, B1)
                else if Total(s) == 2 * s.c then DelLRU(s, B2) else Done(s);
      assert s1.Done?;
      ReplaceSizes(s1.value, false, zero, x);
    }
  }

  // ------------------------------------------------------------------- entries alone

  lemma ReplaceEntries<K(!new), V>(s: Cache<K, V>, fromB2: bool, zero: V, x: K)
    requires Filed(s) && (TakesT1(s, fromB2) || s.t2 != []) && MarkedBut(s.entries, x)
    ensures var s' := Replace(s, fromB2, zero).value;
            && MarkedBut(s'.entries, x) && Spares(s.entries, s'.entries, x) && s'.entries.Keys == s.entries.Keys
            && (x in s.entries && (s.entries[x].ll.B1? || s.entries[x].ll.B2?) ==> s'.entries[x] == s.entries[x])
  {
    var l := if TakesT1(s, fromB2) then s.t1 else s.t2;
    assert Last(l) in l;
  }

  lemma HitGhostEntries<K(!new), V>(s: Cache<K, V>, k: K, e: Entry<V>, zero: V)
    requires HitGhost(s, k, e, zero).Done?
    requires Filed(s) && MarkedBut(s.entries, k)
    requires k in s.entries && e.ll == s.entries[k].ll && (e.ll.B1? || e.ll.B2?)
    ensures var s' := HitGhost(s, k, e, zero).value;
            && s'.c == s.c && Filed(s') && MarkedBut(s'.entries, k) && Spares(s.entries, s'.entries, k)
            && k in s'.entries && s'.entries[k] == e.(ll := T2)
  {
    var s0 := Tuned(s, e.ll.B1?).value;
    ReplaceFiled(s0, e.ll.B2?, zero);
    ReplaceEntries(s0, e.ll.B2?, zero, k);
    var s1 := Replace(s0, e.ll.B2?, zero).value;
    ToT2Filed(s1, k, e);
  }

  lemma DelEntries<K(!new), V>(s: Cache<K, V>, w: Place)
    requires w.T1? || w.B1? || w.B2?
    requires DelLRU(s, w).Done? && Filed(s) && Marked(s.entries)
    ensures var s' := DelLRU(s, w).value;
            && Filed(s') && Marked(s'.entries) && s'.entries.Keys <= s.entries.Keys
            && (forall k :: k in s'.entries ==> s'.entries[k] == s.entries[k])
  {
    DelFiled(s, w);
  }

  lemma MakeRoomEntries<K(!new), V>(s: Cache<K, V>, zero: V, x: K)
    requires MakeRoom(s, zero).Done?
    requires Filed(s) && Marked(s.entries) && x !in s.entries
    ensures var s' := MakeRoom(s, zero).value;
            Filed(s') && Marked(s'.entries) && Spares(s.entries, s'.entries, x) && s'.entries.Keys <= s.entries.Keys
  {
    var s1 := s;
    if |s.t1| + |s.b1| == s.c {
      var w := if |s.t1| < s.c then B1 else T1;
      DelEntries(s, w);
      s1 := DelLRU(s, w).value;
    } else if |s.t1| + |s.b1| < s.c && Total(s) >= s.c && Total(s) == 2 * s.c {
      DelEntries(s, B2);
      s1 := DelLRU(s, B2).value;
    }
    if |s.t1| + |s.b1| <= s.c && |s.t1| < s.c && Total(s) >= s.c {
      ReplaceFiled(s1, false, zero);
      ReplaceEntries(s1, false, zero, x);
    }
  }

  // --------------------------------------------------------------- one whole request

  lemma InitInv<K(!new), V>(c: int)
    requires c >= 1
    ensures Inv(Init<K, V>(c))
  {
  }

  lemma ReqPlaced<K(!new), V>(s: Cache<K, V>, k: K)
    requires Filed(s) && k in s.entries
    ensures match s.entries[k].ll
            case T1 => k in s.t1
            case B1 => k in s.b1
            case T2 => k in s.t2
            case B2 => k in s.b2
            case Nowhere => false
  {
    assert k !in [];
  }

  lemma MoveKeeps<K(!new), V>(s: Cache<K, V>, k: K, e: Entry<V>)
    requires Sized(s) && Filed(s) && MarkedBut(s.entries, k) && k in s.entries && e.ll == s.entries[k].ll
    requires e.ll.T1? || e.ll.T2?
    ensures Inv(ToT2(s, k, e)) && Spares(s.entries, ToT2(s, k, e).entries, k)
  {
    ReqPlaced(s, k);
    ToT2Filed(s, k, e);
  }

  /** Every request, for a known key or a new one, is free of panics and keeps the
      invariant; it changes no other entry except to make ghosts or delete them, and the
      requested entry ends with the content it came with. */
  lemma ReqKeeps<K(!new), V>(s: Cache<K, V>, k: K, e: Entry<V>, zero: V)
    requires Sized(s) && Filed(s) && MarkedBut(s.entries, k)
    requires if k in s.entries then e.ll == s.entries[k].ll else e.ll.Nowhere? && !e.dead
    ensures Req(s, k, e, zero).Done?
    ensures var s' := Req(s, k, e, zero).value;
            && s'.c == s.c && Inv(s') && Spares(s.entries, s'.entries, k)
            && k in s'.entries && s'.entries[k] == e.(ll := if e.ll.Nowhere? then T1 else T2)
  {
    if k !in s.entries {
      MakeRoomSizes(s, zero, k);
      MakeRoomEntries(s, zero, k);
      ToT1Filed(MakeRoom(s, zero).value, k, e);
    } else if e.ll.T1? || e.ll.T2? {
      MoveKeeps(s, k, e);
    } else {
      ReqPlaced(s, k);
      HitGhostSizes(s, k, e, zero);
      HitGhostEntries(s, k, e, zero);
    }
  }
}
