/** The replacement policy of the cache, told from the state before a request: how the target
    moves, which entry gives way, which key is forgotten, and what the four lists become. */
module ArcPolicy {
  import opened ArcModel
  import opened ArcProofs
  import opened ArcRuns

  function Larger(a: int, b: int): int { if a < b then b else a }

  function Smaller(a: int, b: int): int { if a < b then a else b }

  predicate New<K(==), V>(s: Cache<K, V>, k: K) { k !in s.t1 && k !in s.t2 && k !in s.b1 && k !in s.b2 }

  /** A hit in b1 raises the target, one in b2 lowers it, by the ratio of the ghost lists. */
  function Target<K(==), V>(s: Cache<K, V>, k: K): int {
    if k in s.b1 then Smaller(s.c, s.p + Larger(1, |s.b2| / |s.b1|))
    else if k in s.b2 then Larger(0, s.p - Larger(1, |s.b1| / |s.b2|))
    else s.p
  }

  /** A live entry must give way: the key is not cached, and the cache is full. */
  predicate Evicts<K(==), V>(s: Cache<K, V>, k: K) {
    k !in s.t1 && k !in s.t2 && |s.t1| + |s.t2| == s.c
  }

  /** It is the last of t1 rather than of t2. */
  predicate FromT1<K(==), V>(s: Cache<K, V>, k: K) {
    || (New(s, k) && |s.t1| == s.c)
    || (|s.t1| > 0 && (|s.t1| > Target(s, k) || (k in s.b2 && |s.t1| == Target(s, k))))
  }

  /** The victim is deleted at once rather than remembered as a ghost. */
  predicate Deletes<K(==), V>(s: Cache<K, V>, k: K) { New(s, k) && |s.t1| == s.c }

  /** Room in the directory is made by forgetting the oldest ghost of b1, or of b2. */
  predicate ForgetsB1<K(==), V>(s: Cache<K, V>, k: K) { New(s, k) && |s.t1| + |s.b1| == s.c && |s.t1| < s.c }

  predicate ForgetsB2<K(==), V>(s: Cache<K, V>, k: K) {
    New(s, k) && |s.t1| + |s.b1| < s.c && |s.t1| + |s.t2| + |s.b1| + |s.b2| == 2 * s.c
  }

  function Victim<K(==), V>(s: Cache<K, V>, k: K): Option<K> {
    if !Evicts(s, k) then None
    else if FromT1(s, k) then (if s.t1 == [] then None else Some(s.t1[|s.t1| - 1]))
    else (if s.t2 == [] then None else Some(s.t2[|s.t2| - 1]))
  }

  function Forgotten<K(==), V>(s: Cache<K, V>, k: K): Option<K> {
    if Deletes(s, k) then Victim(s, k)
    else if ForgetsB1(s, k) then (if s.b1 == [] then None else Some(s.b1[|s.b1| - 1]))
    else if ForgetsB2(s, k) then (if s.b2 == [] then None else Some(s.b2[|s.b2| - 1]))
    else None
  }

  function Cut<K>(l: seq<K>, b: bool): seq<K> { if b && l != [] then l[..|l| - 1] else l }

  function Only<K>(b: bool, k: K): seq<K> { if b then [k] else [] }

  function Named<K>(b: bool, v: Option<K>): seq<K> { if b && v.Some? then [v.value] else [] }

  /** The lists: a new key enters t1, a known one t2, at the front; the victim leaves the back of
      its list for the front of the ghosts of that list. */
  ghost predicate Moves<K, V>(s: Cache<K, V>, k: K, s': Cache<K, V>) {
    var v, out, from1, gone := Victim(s, k), Evicts(s, k), FromT1(s, k), Deletes(s, k);
    && s'.t1 == Only(New(s, k), k) + Cut(Remove(s.t1, k), out && from1)
    && s'.t2 == Only(!New(s, k), k) + Cut(Remove(s.t2, k), out && !from1)
    && s'.b1 == Named(out && from1 && !gone, v) + Cut(Remove(s.b1, k), ForgetsB1(s, k))
    && s'.b2 == Named(out && !from1, v) + Cut(Remove(s.b2, k), ForgetsB2(s, k))
  }

  /** The other entries: all stay as they were, but the victim becomes a ghost without a value and
      the forgotten key goes. */
  ghost predicate Touches<K(!new), V>(s: Cache<K, V>, k: K, s': Cache<K, V>, zero: V) {
    var v, f := Victim(s, k), Forgotten(s, k);
    && (forall j :: j != k ==> (j in s'.entries <==> j in s.entries && f != Some(j)))
    && (forall j :: j != k && j in s'.entries && v != Some(j) ==> s'.entries[j] == s.entries[j])
    && (forall j :: j != k && j in s'.entries && v == Some(j) ==>
          s'.entries[j] == Entry(zero, true, s.entries[j].expires, if FromT1(s, k) then B1 else B2))
  }

  // ------------------------------------------------------------------------- the lists

  lemma {:induction false} RemoveAbsent<K>(l: seq<K>, k: K)
    requires k !in l
    ensures Remove(l, k) == l
  {
    if l != [] { RemoveAbsent(l[1..], k); }
  }

  /** Unlinking keeps the order of the others. */
  lemma {:induction false} RemoveSplits<K>(a: seq<K>, k: K, b: seq<K>)
    requires k !in a
    ensures Remove(a + [k] + b, k) == a + b
  {
    if a == [] {
      assert a + [k] + b == [k] + b;
    } else {
      RemoveSplits(a[1..], k, b);
      assert (a + [k] + b)[1..] == a[1..] + [k] + b;
    }
  }

  lemma MoveLists<K(!new), V>(s: Cache<K, V>, k: K, e: Entry<V>)
    requires Sized(s) && Filed(s) && k in s.entries && e.ll == s.entries[k].ll && (e.ll.T1? || e.ll.T2?)
    ensures ToT2(s, k, e).p == Target(s, k) && Moves(s, k, ToT2(s, k, e))
  {
    ReqPlaced(s, k);
    assert k !in s.b1 && k !in s.b2;
    RemoveAbsent(s.b1, k);
    RemoveAbsent(s.b2, k);
    if e.ll.T1? { RemoveAbsent(s.t2, k); } else { RemoveAbsent(s.t1, k); }
  }

  lemma TunedIs<K(!new), V>(s: Cache<K, V>, k: K, e: Entry<V>)
    requires Sized(s) && Filed(s) && k in s.entries && e.ll == s.entries[k].ll && (e.ll.B1? || e.ll.B2?)
    ensures Tuned(s, e.ll.B1?) == Done(s.(p := Target(s, k)))
  {
    ReqPlaced(s, k);
    RatioIs(|s.b1|, |s.b2|);
    RatioIs(|s.b2|, |s.b1|);
  }

  lemma RatioIs(own: nat, other: nat)
    ensures own > 0 ==> Adapt(own, other) == Done(Larger(1, other / own))
  {
    if own > 0 && own > other { assert other / own == 0; }
  }

  /** The lists of a ghost hit, given the list the victim comes from. */
  lemma GhostMoves<K, V>(s: Cache<K, V>, k: K, e: Entry<V>, zero: V, q: int, s1: Cache<K, V>, from1: bool)
    requires k !in s.t1 && k !in s.t2
    requires if e.ll.B1? then k in s.b1 && k !in s.b2 else e.ll.B2? && k in s.b2 && k !in s.b1
    requires Remove(if e.ll.B1? then s.b2 else s.b1, k) == if e.ll.B1? then s.b2 else s.b1
    requires Replace(s.(p := q), e.ll.B2?, zero) == Done(s1) && from1 == TakesT1(s.(p := q), e.ll.B2?)
    ensures var s', l := ToT2(s1, k, e), if from1 then s.t1 else s.t2;
      && l != [] && s'.p == q
      && s'.t1 == Cut(s.t1, from1) && s'.t2 == [k] + Cut(s.t2, !from1)
      && s'.b1 == Only(from1, l[|l| - 1]) + Remove(s.b1, k)
      && s'.b2 == Only(!from1, l[|l| - 1]) + Remove(s.b2, k)
  {
    var l := if from1 then s.t1 else s.t2;
    assert l[|l| - 1] in l;
    RemoveBehind(l[|l| - 1], s.b1, k);
    RemoveBehind(l[|l| - 1], s.b2, k);
  }

  lemma GhostMovesAre<K, V>(s: Cache<K, V>, k: K, s': Cache<K, V>, from1: bool)
    requires k !in s.t1 && k !in s.t2 && (k in s.b1 || k in s.b2) && |s.t1| + |s.t2| == s.c && from1 == FromT1(s, k)
    requires Remove(s.t1, k) == s.t1 && Remove(s.t2, k) == s.t2
    requires var l := if from1 then s.t1 else s.t2;
      && l != []
      && s'.t1 == Cut(s.t1, from1) && s'.t2 == [k] + Cut(s.t2, !from1)
      && s'.b1 == Only(from1, l[|l| - 1]) + Remove(s.b1, k)
      && s'.b2 == Only(!from1, l[|l| - 1]) + Remove(s.b2, k)
    ensures Moves(s, k, s')
  {
  }

  lemma RemoveBehind<K>(v: K, l: seq<K>, k: K)
    requires v != k
    ensures Remove([v] + l, k) == [v] + Remove(l, k)
  {
    assert ([v] + l)[1..] == l;
  }

  ghost predicate AGhost<K, V>(s: Cache<K, V>, k: K, e: Entry<V>) {
    && k !in s.t1 && k !in s.t2 && |s.t1| + |s.t2| == s.c
    && Remove(s.t1, k) == s.t1 && Remove(s.t2, k) == s.t2
    && (if e.ll.B1? then k in s.b1 && k !in s.b2 && Remove(s.b2, k) == s.b2
        else e.ll.B2? && k in s.b2 && k !in s.b1 && Remove(s.b1, k) == s.b1)
  }

  lemma GhostPlaced<K(!new), V>(s: Cache<K, V>, k: K, e: Entry<V>)
    requires Sized(s) && Filed(s) && k in s.entries && e.ll == s.entries[k].ll && (e.ll.B1? || e.ll.B2?)
    ensures AGhost(s, k, e)
  {
    ReqPlaced(s, k);
    RemoveAbsent(s.t1, k);
    RemoveAbsent(s.t2, k);
    RemoveAbsent(if e.ll.B1? then s.b2 else s.b1, k);
  }

  lemma GhostStep<K, V>(s: Cache<K, V>, k: K, e: Entry<V>, zero: V, s0: Cache<K, V>, s1: Cache<K, V>)
    requires AGhost(s, k, e) && s0 == s.(p := Target(s, k)) && Replace(s0, e.ll.B2?, zero) == Done(s1)
    ensures ToT2(s1, k, e).p == Target(s, k) && Moves(s, k, ToT2(s1, k, e))
  {
    assert TakesT1(s0, e.ll.B2?) == FromT1(s, k);
    GhostMoves(s, k, e, zero, Target(s, k), s1, FromT1(s, k));
    GhostMovesAre(s, k, ToT2(s1, k, e), FromT1(s, k));
  }

  lemma GhostLists<K(!new), V>(s: Cache<K, V>, k: K, e: Entry<V>, zero: V)
    requires Sized(s) && Filed(s) && k in s.entries && e.ll == s.entries[k].ll && (e.ll.B1? || e.ll.B2?)
    ensures HitGhost(s, k, e, zero).Done?
    ensures var s' := HitGhost(s, k, e, zero).value; s'.p == Target(s, k) && Moves(s, k, s')
  {
    GhostPlaced(s, k, e);
    HitGhostSizes(s, k, e, zero);
    TunedIs(s, k, e);
    var s0 := s.(p := Target(s, k));
    GhostStep(s, k, e, zero, s0, Replace(s0, e.ll.B2?, zero).value);
  }

  /** What is left when a live entry has given way to a new key. */
  lemma RoomMoves<K, V>(s: Cache<K, V>, k: K, zero: V)
    requires Sized(s) && New(s, k) && MakeRoom(s, zero).Done?
    ensures var s' := MakeRoom(s, zero).value;
      && s'.p == s.p
      && s'.t1 == Cut(s.t1, Evicts(s, k) && FromT1(s, k)) && s'.t2 == Cut(s.t2, Evicts(s, k) && !FromT1(s, k))
      && s'.b1 == Named(Evicts(s, k) && FromT1(s, k) && !Deletes(s, k), Victim(s, k)) + Cut(s.b1, ForgetsB1(s, k))
      && s'.b2 == Named(Evicts(s, k) && !FromT1(s, k), Victim(s, k)) + Cut(s.b2, ForgetsB2(s, k))
  {
    assert Target(s, k) == s.p;
    assert Evicts(s, k) <==> Total(s) >= s.c;
  }

  lemma NewLists<K(!new), V>(s: Cache<K, V>, k: K, e: Entry<V>, zero: V)
    requires Sized(s) && Filed(s) && k !in s.entries
    ensures Admit(s, k, e, zero).Done?
    ensures var s' := Admit(s, k, e, zero).value; s'.p == Target(s, k) && Moves(s, k, s')
  {
    MakeRoomSizes(s, zero, k);
    assert New(s, k);
    RoomMoves(s, k, zero);
    RemoveAbsent(s.t1, k);
    RemoveAbsent(s.t2, k);
    RemoveAbsent(s.b1, k);
    RemoveAbsent(s.b2, k);
  }

  // ----------------------------------------------------------------------- the entries

  lemma MoveTouches<K(!new), V>(s: Cache<K, V>, k: K, e: Entry<V>, zero: V)
    requires Sized(s) && Filed(s) && k in s.entries && e.ll == s.entries[k].ll && (e.ll.T1? || e.ll.T2?)
    ensures Touches(s, k, ToT2(s, k, e), zero)
  {
    ReqPlaced(s, k);
  }

  /** The keys at the backs of the lists have entries, and those of t1 and t2 are no ghosts' keys. */
  ghost predicate Backed<K, V>(s: Cache<K, V>) {
    && (s.t1 != [] ==> Last(s.t1) in s.entries && Last(s.t1) !in s.b1 && Last(s.t1) !in s.b2)
    && (s.t2 != [] ==> Last(s.t2) in s.entries && Last(s.t2) !in s.b1 && Last(s.t2) !in s.b2)
  }

  lemma FiledBacked<K(!new), V>(s: Cache<K, V>)
    requires Filed(s)
    ensures Backed(s)
  {
    assert s.t1 != [] ==> Last(s.t1) in s.t1;
    assert s.t2 != [] ==> Last(s.t2) in s.t2;
  }

  lemma GhostStepTouches<K(!new), V>(s: Cache<K, V>, k: K, e: Entry<V>, zero: V, s0: Cache<K, V>, s1: Cache<K, V>)
    requires AGhost(s, k, e) && Backed(s) && k in s.entries
    requires s0 == s.(p := Target(s, k)) && Replace(s0, e.ll.B2?, zero) == Done(s1)
    ensures Touches(s, k, ToT2(s1, k, e), zero)
  {
    assert TakesT1(s0, e.ll.B2?) == FromT1(s, k);
  }

  lemma GhostTouches<K(!new), V>(s: Cache<K, V>, k: K, e: Entry<V>, zero: V)
    requires Sized(s) && Filed(s) && k in s.entries && e.ll == s.entries[k].ll && (e.ll.B1? || e.ll.B2?)
    ensures HitGhost(s, k, e, zero).Done? && Touches(s, k, HitGhost(s, k, e, zero).value, zero)
  {
    FiledBacked(s);
    GhostPlaced(s, k, e);
    HitGhostSizes(s, k, e, zero);
    TunedIs(s, k, e);
    var s0 := s.(p := Target(s, k));
    GhostStepTouches(s, k, e, zero, s0, Replace(s0, e.ll.B2?, zero).value);
  }

  lemma RoomTouches<K(!new), V>(s: Cache<K, V>, k: K, zero: V)
    requires Sized(s) && New(s, k) && Backed(s) && MakeRoom(s, zero).Done?
    ensures Touches(s, k, MakeRoom(s, zero).value, zero)
  {
    assert Target(s, k) == s.p;
    assert Evicts(s, k) <==> Total(s) >= s.c;
    assert s.b1 != [] ==> Last(s.b1) in s.b1;
    assert s.b2 != [] ==> Last(s.b2) in s.b2;
  }

  lemma NewTouches<K(!new), V>(s: Cache<K, V>, k: K, e: Entry<V>, zero: V)
    requires Sized(s) && Filed(s) && k !in s.entries
    ensures Admit(s, k, e, zero).Done? && Touches(s, k, Admit(s, k, e, zero).value, zero)
  {
    FiledBacked(s);
    MakeRoomSizes(s, zero, k);
    RoomTouches(s, k, zero);
  }

  // --------------------------------------------------------------------- Set and Get

  /** What a request does, all told. */
  ghost predicate Follows<K(!new), V>(s: Cache<K, V>, k: K, s': Cache<K, V>, zero: V) {
    s'.c == s.c && s'.p == Target(s, k) && Moves(s, k, s') && Touches(s, k, s', zero)
  }

  lemma ReqFollows<K(!new), V>(s: Cache<K, V>, k: K, e: Entry<V>, zero: V)
    requires Sized(s) && Filed(s) && MarkedBut(s.entries, k)
    requires if k in s.entries then e.ll == s.entries[k].ll else e.ll.Nowhere? && !e.dead
    ensures Req(s, k, e, zero).Done? && Follows(s, k, Req(s, k, e, zero).value, zero)
  {
    ReqKeeps(s, k, e, zero);
    if k !in s.entries {
      NewLists(s, k, e, zero);
      NewTouches(s, k, e, zero);
    } else if e.ll.T1? || e.ll.T2? {
      MoveLists(s, k, e);
      MoveTouches(s, k, e, zero);
    } else {
      ReqPlaced(s, k);
      GhostLists(s, k, e, zero);
      GhostTouches(s, k, e, zero);
    }
  }

  lemma SameLists<K(!new), V>(s: Cache<K, V>, r: Cache<K, V>, k: K, s': Cache<K, V>, zero: V)
    requires Follows(r, k, s', zero)
    requires r.c == s.c && r.p == s.p && r.t1 == s.t1 && r.t2 == s.t2 && r.b1 == s.b1 && r.b2 == s.b2
    requires forall j :: j != k ==> (j in r.entries <==> j in s.entries)
    requires forall j :: j != k && j in s.entries ==> r.entries[j] == s.entries[j]
    ensures Follows(s, k, s', zero)
  {
    assert Target(r, k) == Target(s, k) && New(r, k) == New(s, k);
    assert FromT1(r, k) == FromT1(s, k) && Victim(r, k) == Victim(s, k) && Forgotten(r, k) == Forgotten(s, k);
  }

  /** Every Set follows the policy, and enters its value: at the front of t1 if the key is new, at
      the front of t2 if it is in any of the lists. */
  lemma SetFollows<K(!new), V>(s: Cache<K, V>, k: K, v: V, x: int, zero: V)
    requires Inv(s)
    ensures Set(s, k, v, x, zero).Done? && Follows(s, k, Set(s, k, v, x, zero).value, zero)
    ensures var s' := Set(s, k, v, x, zero).value;
            k in s'.entries && s'.entries[k] == Entry(v, false, x, if New(s, k) then T1 else T2)
  {
    var e := SetEntry(s, k, v, x);
    var r := Written(s, k, e);
    WrittenFiled(s, k, e);
    ReqFollows(r, k, e, zero);
    SameLists(s, r, k, Set(s, k, v, x, zero).value, zero);
    ReqKeeps(r, k, e, zero);
    if k in s.entries { ReqPlaced(s, k); }
  }

  /** A Get of a key in none of the lists changes nothing; of any other it follows the policy. It
      hits exactly if there is an entry and it is no ghost. */
  lemma GetFollows<K(!new), V>(s: Cache<K, V>, k: K, zero: V)
    requires Inv(s)
    ensures Get(s, k, zero).Done?
    ensures var (s', hit) := Get(s, k, zero).value;
            && (New(s, k) <==> k !in s.entries)
            && (if New(s, k) then s' == s
                else Follows(s, k, s', zero) && k in s'.entries && s'.entries[k] == s.entries[k].(ll := T2))
            && hit == if k in s.entries && !s.entries[k].dead
                      then Some((s.entries[k].value, s.entries[k].expires)) else None
  {
    if k in s.entries {
      ReqPlaced(s, k);
      ReqFollows(s, k, s.entries[k], zero);
      ReqKeeps(s, k, s.entries[k], zero);
    }
  }

  /** So at most one other live entry is lost, and which one is told by the lists and the target:
      the last of t1 if t1 is longer than the new target, or as long on a hit in b2, or all there
      is when the key is new; else the last of t2. */
  lemma OneVictim<K(!new), V>(s: Cache<K, V>, k: K, s': Cache<K, V>, zero: V, j: K)
    requires Inv(s) && Follows(s, k, s', zero)
    requires j != k && j in s.entries && !s.entries[j].dead && !(j in s'.entries && !s'.entries[j].dead)
    ensures k !in s.t1 && k !in s.t2 && |s.t1| + |s.t2| == s.c
    ensures if s.t1 != [] && (|s.t1| > s'.p || (k in s.b2 && |s.t1| == s'.p) || (New(s, k) && s.t2 == [] && s.b1 == []))
            then j == s.t1[|s.t1| - 1] else s.t2 != [] && j == s.t2[|s.t2| - 1]
  {
    assert s.b1 != [] ==> s.b1[|s.b1| - 1] in s.b1;
    assert s.b2 != [] ==> s.b2[|s.b2| - 1] in s.b2;
  }

  /** A new cache, and one just cleared, is empty with its target at 0. */
  lemma EmptyAtFirst<K(!new), V>(c: int, ops: seq<Op<K, V>>, zero: V)
    ensures Run<K, V>(c, [], zero) == Done(Cache(c, 0, 0, [], [], [], [], map[]))
    ensures c >= 1 ==> Run(c, ops + [ClearOp], zero) == Done(Cache(c, 0, 0, [], [], [], [], map[]))
  {
    if c >= 1 {
      RunKeeps(c, ops, zero);
      assert (ops + [ClearOp])[..|ops|] == ops;
    }
  }
}
