/** The adaptive replacement cache of common/arc as a function of values: four lists of
    keys (index 0 is the most recently used end), the tuning target `p`, the counter
    `len`, and the entries by key. `Panic` is the outcome of taking the back of an empty
    list, which the original does by dereferencing nil. */
module ArcModel {

  datatype Option<T> = None | Some(value: T)

  /** The list an entry is linked into. */
  datatype Place = Nowhere | T1 | B1 | T2 | B2

  datatype Entry<V> = Entry(value: V, dead: bool, expires: int, ll: Place)

  datatype Cache<K, V> = Cache(
    c: int, p: int, len: int,
    t1: seq<K>, b1: seq<K>, t2: seq<K>, b2: seq<K>,
    entries: map<K, Entry<V>>)

  datatype Outcome<T> = Panic | Done(value: T)

  /** The key is unlinked from a list that holds it. */
  function Remove<K(==)>(s: seq<K>, k: K): (r: seq<K>)
    ensures |r| == if k in s then |s| - 1 else |s|
  {
    if s == [] then [] else if s[0] == k then s[1..] else [s[0]] + Remove(s[1..], k)
  }

  function Last<K>(s: seq<K>): K requires s != [] { s[|s| - 1] }

  function Init<K, V>(c: int): Cache<K, V> {
    Cache(c, 0, 0, [], [], [], [], map[])
  }

  function Clear<K, V>(s: Cache<K, V>): Cache<K, V> { Init(s.c) }

  /** `detach`: the key leaves the list its entry names. */
  function Detach<K(==), V>(s: Cache<K, V>, k: K, from: Place): Cache<K, V> {
    match from
    case Nowhere => s
    case T1 => s.(t1 := Remove(s.t1, k))
    case B1 => s.(b1 := Remove(s.b1, k))
    case T2 => s.(t2 := Remove(s.t2, k))
    case B2 => s.(b2 := Remove(s.b2, k))
  }

  /** `setMRU`: the entry moves to the front of t2, or of t1. */
  function ToT2<K(==), V>(s: Cache<K, V>, k: K, e: Entry<V>): Cache<K, V> {
    var d := Detach(s, k, e.ll);
    d.(t2 := [k] + d.t2, entries := d.entries[k := e.(ll := T2)])
  }

  function ToT1<K(==), V>(s: Cache<K, V>, k: K, e: Entry<V>): Cache<K, V> {
    s.(t1 := [k] + s.t1, entries := s.entries[k := e.(ll := T1)])
  }

  /** Whether `replace` takes its victim from t1 rather than from t2. */
  predicate TakesT1<K, V>(s: Cache<K, V>, fromB2: bool) {
    |s.t1| > 0 && (|s.t1| > s.p || (fromB2 && |s.t1| == s.p))
  }

  /** The victim keeps its key and expiry, loses its value and becomes a ghost. */
  function Vacate<K(==), V>(m: map<K, Entry<V>>, k: K, zero: V, to: Place): map<K, Entry<V>> {
    m[k := Entry(zero, true, if k in m then m[k].expires else 0, to)]
  }

  function Replace<K(==), V>(s: Cache<K, V>, fromB2: bool, zero: V): Outcome<Cache<K, V>> {
    if TakesT1(s, fromB2) then
      var lru := Last(s.t1);
      Done(s.(entries := Vacate(s.entries, lru, zero, B1), len := s.len - 1,
              t1 := s.t1[..|s.t1| - 1], b1 := [lru] + s.b1))
    else if s.t2 == [] then Panic
    else
      var lru := Last(s.t2);
      Done(s.(entries := Vacate(s.entries, lru, zero, B2), len := s.len - 1,
              t2 := s.t2[..|s.t2| - 1], b2 := [lru] + s.b2))
  }

  /** `delLRU` on t1, b1 or b2. */
  function DelLRU<K(==), V>(s: Cache<K, V>, w: Place): Outcome<Cache<K, V>>
    requires w.T1? || w.B1? || w.B2?
  {
    var l := match w case T1 => s.t1 case B1 => s.b1 case B2 => s.b2;
    if l == [] then Panic
    else
      var rest := l[..|l| - 1];
      var s1 := s.(len := s.len - 1, entries := s.entries - {Last(l)});
      Done(match w
           case T1 => s1.(t1 := rest)
           case B1 => s1.(b1 := rest)
           case B2 => s1.(b2 := rest))
  }

  function Total<K, V>(s: Cache<K, V>): int { |s.t1| + |s.t2| + |s.b1| + |s.b2| }

  /** How far one ghost hit moves the target. The divisor is the length of the list that
      was hit; an empty one is the division by zero of the original. */
  function Adapt(own: nat, other: nat): Outcome<int> {
    if own >= other then Done(1) else if own == 0 then Panic else Done(other / own)
  }

  /** `req` for the entry e of key k; e.ll says which list holds it now. */
  function Req<K(==), V>(s: Cache<K, V>, k: K, e: Entry<V>, zero: V): Outcome<Cache<K, V>> {
    match e.ll
    case T1 => Done(ToT2(s, k, e))
    case T2 => Done(ToT2(s, k, e))
    case B1 => HitGhost(s, k, e, zero)
    case B2 => HitGhost(s, k, e, zero)
    case Nowhere => Admit(s, k, e, zero)
  }

  /** The target after a hit in b1, or in b2. */
  function Tuned<K, V>(s: Cache<K, V>, inB1: bool): Outcome<Cache<K, V>> {
    match (if inB1 then Adapt(|s.b1|, |s.b2|) else Adapt(|s.b2|, |s.b1|))
    case Panic => Panic
    case Done(d) =>
      Done(s.(p := if inB1 then (if s.p + d < s.c then s.p + d else s.c) else (if s.p - d < 0 then 0 else s.p - d)))
  }

  /** Cases II and III of `req`. */
  function HitGhost<K(==), V>(s: Cache<K, V>, k: K, e: Entry<V>, zero: V): Outcome<Cache<K, V>> {
    match Tuned(s, e.ll.B1?)
    case Panic => Panic
    case Done(s0) =>
      match Replace(s0, e.ll.B2?, zero)
      case Panic => Panic
      case Done(s1) => Done(ToT2(s1, k, e))
  }

  /** Case IV of `req`: the deletion, the replacement, and the entry at the front of t1. */
  function Admit<K(==), V>(s: Cache<K, V>, k: K, e: Entry<V>, zero: V): Outcome<Cache<K, V>> {
    match MakeRoom(s, zero)
    case Panic => Panic
    case Done(s1) => Done(ToT1(s1, k, e))
  }

  function MakeRoom<K(==), V>(s: Cache<K, V>, zero: V): Outcome<Cache<K, V>> {
    if |s.t1| + |s.b1| == s.c then
      if |s.t1| < s.c then
        match DelLRU(s, B1)
        case Panic => Panic
        case Done(s1) => Replace(s1, false, zero)
      else DelLRU(s, T1)
    else if |s.t1| + |s.b1| < s.c && Total(s) >= s.c then
      match (if Total(s) == 2 * s.c then DelLRU(s, B2) else Done(s))
      case Panic => Panic
      case Done(s1) => Replace(s1, false, zero)
    else Done(s)
  }

  function SetEntry<K(==), V>(s: Cache<K, V>, k: K, v: V, expires: int): Entry<V> {
    Entry(v, false, expires, if k in s.entries then s.entries[k].ll else Nowhere)
  }

  /** The counter goes up when the key is new or a ghost; a known entry is overwritten. */
  function Written<K(==), V>(s: Cache<K, V>, k: K, e: Entry<V>): Cache<K, V> {
    if k !in s.entries then s.(len := s.len + 1)
    else s.(len := if s.entries[k].dead then s.len + 1 else s.len, entries := s.entries[k := e])
  }

  function Set<K(==), V>(s: Cache<K, V>, k: K, v: V, expires: int, zero: V): Outcome<Cache<K, V>> {
    var e := SetEntry(s, k, v, expires);
    Req(Written(s, k, e), k, e, zero)
  }

  /** `get`: the cache afterwards, and the value with its expiry on a hit. */
  function Get<K(==), V>(s: Cache<K, V>, k: K, zero: V): Outcome<(Cache<K, V>, Option<(V, int)>)> {
    if k !in s.entries then Done((s, None))
    else
      var e := s.entries[k];
      match Req(s, k, e, zero)
      case Panic => Panic
      case Done(s1) => Done((s1, if e.dead then None else Some((e.value, e.expires))))
  }

  // ---------------------------------------------------------------- the invariant

  /** The joint size invariants, and p within its range. */
  predicate Sized<K, V>(s: Cache<K, V>) {
    && s.c >= 1
    && 0 <= s.p <= s.c
    && |s.t1| + |s.t2| <= s.c
    && |s.t1| + |s.b1| <= s.c
    && Total(s) <= 2 * s.c
    && (s.b1 != [] || s.b2 != [] ==> |s.t1| + |s.t2| == s.c)
  }

  predicate NoDup<K(==)>(l: seq<K>) {
    forall i, j :: 0 <= i < j < |l| ==> l[i] != l[j]
  }

  /** The list holds, once each, exactly the keys whose entries name it. */
  ghost predicate Holds<K(!new), V>(l: seq<K>, at: Place, m: map<K, Entry<V>>) {
    NoDup(l) && forall k :: k in l <==> k in m && m[k].ll == at
  }

  /** The keys of the map are the disjoint union of the four lists. */
  ghost predicate Filed<K(!new), V>(s: Cache<K, V>) {
    && Holds(s.t1, T1, s.entries) && Holds(s.b1, B1, s.entries)
    && Holds(s.t2, T2, s.entries) && Holds(s.b2, B2, s.entries)
    && Holds([], Nowhere, s.entries)
  }

  /** Every entry of t1 is live and every entry of b1 and b2 is a ghost; t2 has both. */
  ghost predicate Marked<K(!new), V>(m: map<K, Entry<V>>)
  {
    forall k :: k in m ==> (m[k].ll.T1? ==> !m[k].dead) && (m[k].ll.B1? || m[k].ll.B2? ==> m[k].dead)
  }

  ghost predicate Inv<K(!new), V>(s: Cache<K, V>) {
    Sized(s) && Filed(s) && Marked(s.entries)
  }

  lemma Same<K, V>(a: Cache<K, V>, b: Cache<K, V>)
    requires a.c == b.c && a.p == b.p && a.len == b.len && a.t1 == b.t1 && a.b1 == b.b1 && a.t2 == b.t2 && a.b2 == b.b2
    requires a.entries == b.entries
    ensures a == b
  {
  }
}
