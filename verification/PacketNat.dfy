/** The destination mappings of the UDP packet sender (tunnel/connection.go): the first one
    inline, maps from the second on, each side promoted on its own. The reference is two
    plain maps in which the first writer wins. */
module PacketNat {
  import opened NetAddr

  datatype Option<T> = None | Some(value: T)

  datatype AddrPort = AddrPort(addr: Addr, port: nat)

  predicate IsValid(a: AddrPort) { !a.addr.Unset? }

  datatype Metadata = Metadata(host: string, ip: Addr, port: nat)

  function AddrPortOf(m: Metadata): AddrPort { AddrPort(Unmap(m.ip), m.port) }

  datatype Key = Key(host: string, ip: Addr, port: nat)

  function KeyOf(m: Metadata): Key {
    if m.host != "" then Key(m.host, Unset, m.port) else Key("", Unmap(m.ip), m.port)
  }

  const LIMIT: nat := 4096

  // --------------------------------------------------------------------- the reference

  datatype Table = Table(origins: map<Key, AddrPort>, reverse: map<AddrPort, AddrPort>)

  function FirstWins<K, V>(m: map<K, V>, k: K, v: V): map<K, V> {
    if k in m then m else m[k := v]
  }

  predicate Refuses(t: Table, origin: Metadata) {
    KeyOf(origin) !in t.origins && |t.origins| >= LIMIT
  }

  /** One insertion: a known origin and a full table change nothing. */
  function Insert(t: Table, origin: Metadata, target: Metadata): Table {
    if KeyOf(origin) in t.origins || |t.origins| >= LIMIT then t
    else
      Table(t.origins[KeyOf(origin) := AddrPortOf(target)],
            if IsValid(AddrPortOf(origin)) then FirstWins(t.reverse, AddrPortOf(target), AddrPortOf(origin))
                else t.reverse)
  }

  function Target(t: Table, m: Metadata): Option<AddrPort> {
    if KeyOf(m) in t.origins then Some(t.origins[KeyOf(m)]) else None
  }

  function Restore(t: Table, a: AddrPort): AddrPort {
    var u := AddrPort(Unmap(a.addr), a.port);
    if u in t.reverse then t.reverse[u] else u
  }

  // ------------------------------------------------------------------------ the sender

  class Sender {
    var hasSingle: bool
    var singleOrigin: Key
    var singleTarget: AddrPort
    var originToTarget: Option<map<Key, AddrPort>>
    var hasSingleRev: bool
    var singleRevFrom: AddrPort
    var singleRevTo: AddrPort
    var targetToOrigin: Option<map<AddrPort, AddrPort>>

    ghost predicate Valid()
      reads this
    {
      && (originToTarget.Some? ==> !hasSingle)
      && (targetToOrigin.Some? ==> !hasSingleRev)
      && (hasSingleRev ==> IsValid(singleRevTo))
      && (targetToOrigin.Some? ==> forall a :: a in targetToOrigin.value ==> IsValid(targetToOrigin.value[a]))
      && |Origins()| <= LIMIT
    }

    ghost function Origins(): map<Key, AddrPort>
      reads this
    {
      if originToTarget.Some? then originToTarget.value
      else if hasSingle then map[singleOrigin := singleTarget] else map[]
    }

    ghost function Reverse(): map<AddrPort, AddrPort>
      reads this
    {
      if targetToOrigin.Some? then targetToOrigin.value
      else if hasSingleRev then map[singleRevFrom := singleRevTo] else map[]
    }

    ghost function Contents(): Table reads this { Table(Origins(), Reverse()) }

    constructor ()
      ensures Valid() && Contents() == Table(map[], map[])
    {
      hasSingle, originToTarget, hasSingleRev, targetToOrigin := false, None, false, None;
      singleOrigin, singleTarget := Key("", Unset, 0), AddrPort(Unset, 0);
      singleRevFrom, singleRevTo := AddrPort(Unset, 0), AddrPort(Unset, 0);
    }

    method HasOrigin(key: Key) returns (r: bool)
      ensures r == (key in Origins())
    {
      if originToTarget.Some? { return key in originToTarget.value; }
      r := hasSingle && singleOrigin == key;
    }

    method OriginCount() returns (n: nat)
      ensures n == |Origins()|
    {
      if originToTarget.Some? { return |originToTarget.value|; }
      n := if hasSingle then 1 else 0;
    }

    method StoreOrigin(key: Key, target: AddrPort)
      requires Valid() && key !in Origins() && |Origins()| < LIMIT
      modifies this`hasSingle, this`singleOrigin, this`singleTarget, this`originToTarget
      ensures Valid() && Origins() == old(Origins())[key := target]
    {
      if originToTarget.Some? {
        originToTarget := Some(originToTarget.value[key := target]);
        return;
      }
      if !hasSingle {
        hasSingle := true;
        singleOrigin := key;
        singleTarget := target;
        return;
      }
      var m := map[singleOrigin := singleTarget];
      m := m[key := target];
      originToTarget := Some(m);
      hasSingle := false;
      singleOrigin := Key("", Unset, 0);
      singleTarget := AddrPort(Unset, 0);
    }

    method StoreReverse(target: AddrPort, origin: AddrPort)
      requires Valid()
      modifies this`hasSingleRev, this`singleRevFrom, this`singleRevTo, this`targetToOrigin
      ensures Valid()
      ensures Reverse() == if IsValid(origin) then FirstWins(old(Reverse()), target, origin) else old(Reverse())
    {
      if !IsValid(origin) { return; }
      if targetToOrigin.Some? {
        if target !in targetToOrigin.value {
          targetToOrigin := Some(targetToOrigin.value[target := origin]);
        }
        return;
      }
      if hasSingleRev {
        if singleRevFrom == target { return; }
        var m := map[singleRevFrom := singleRevTo];
        m := m[target := origin];
        targetToOrigin := Some(m);
        hasSingleRev := false;
        singleRevFrom := AddrPort(Unset, 0);
        singleRevTo := AddrPort(Unset, 0);
        return;
      }
      hasSingleRev := true;
      singleRevFrom := target;
      singleRevTo := origin;
    }

    /** Both sides follow the reference; a refused insertion changes neither. */
    method AddMapping(origin: Metadata, target: Metadata) returns (ok: bool)
      requires Valid()
      modifies this
      ensures Valid() && Contents() == Insert(old(Contents()), origin, target)
      ensures ok == !Refuses(old(Contents()), origin)
      ensures ok ==> KeyOf(origin) in Origins()
    {
      var known := HasOrigin(KeyOf(origin));
      if known { return true; }
      var n := OriginCount();
      if n >= LIMIT { return false; }
      StoreOrigin(KeyOf(origin), AddrPortOf(target));
      StoreReverse(AddrPortOf(target), AddrPortOf(origin));
      ok := true;
    }

    method TargetAddress(m: Metadata) returns (r: Option<AddrPort>)
      ensures r == Target(Contents(), m)
    {
      var key := KeyOf(m);
      if originToTarget.Some? {
        return if key in originToTarget.value then Some(originToTarget.value[key]) else None;
      }
      if hasSingle && singleOrigin == key { return Some(singleTarget); }
      r := None;
    }

    method RestoreReadFrom(a: AddrPort) returns (r: AddrPort)
      requires Valid()
      ensures r == Restore(Contents(), a)
    {
      var u := AddrPort(Unmap(a.addr), a.port);
      var origin := AddrPort(Unset, 0);
      if targetToOrigin.Some? {
        if u in targetToOrigin.value { origin := targetToOrigin.value[u]; }
      } else if hasSingleRev && singleRevFrom == u {
        origin := singleRevTo;
      }
      r := if IsValid(origin) then origin else u;
    }
  }

  // --------------------------------------------------------------- over every sequence

  datatype Pair = Pair(origin: Metadata, target: Metadata)

  function InsertAll(ps: seq<Pair>): Table {
    if ps == [] then Table(map[], map[])
    else Insert(InsertAll(ps[..|ps| - 1]), ps[|ps| - 1].origin, ps[|ps| - 1].target)
  }

  /** The keys inserted, in the order of their first appearance. */
  function FirstSeen(ps: seq<Pair>): seq<Key> {
    if ps == [] then []
    else
      var ks := FirstSeen(ps[..|ps| - 1]);
      var k := KeyOf(ps[|ps| - 1].origin);
      if k in ks then ks else ks + [k]
  }

  function Kept(ps: seq<Pair>): seq<Key> {
    var ks := FirstSeen(ps);
    if |ks| <= LIMIT then ks else ks[..LIMIT]
  }

  /** The first pair for a key. */
  ghost predicate IsFirst(ps: seq<Pair>, i: nat, k: Key) {
    i < |ps| && KeyOf(ps[i].origin) == k && forall j :: 0 <= j < i ==> KeyOf(ps[j].origin) != k
  }

  lemma {:induction false} FirstSeenDistinct(ps: seq<Pair>)
    ensures forall i, j :: 0 <= i < j < |FirstSeen(ps)| ==> FirstSeen(ps)[i] != FirstSeen(ps)[j]
    ensures forall k :: k in FirstSeen(ps) <==> exists i :: 0 <= i < |ps| && KeyOf(ps[i].origin) == k
  {
    if ps != [] {
      var u := ps[..|ps| - 1];
      FirstSeenDistinct(u);
      forall k | k in FirstSeen(ps) ensures exists i :: 0 <= i < |ps| && KeyOf(ps[i].origin) == k {
        if k in FirstSeen(u) {
          var i :| 0 <= i < |u| && KeyOf(u[i].origin) == k;
          assert KeyOf(ps[i].origin) == k;
        } else {
          assert KeyOf(ps[|ps| - 1].origin) == k;
        }
      }
      forall i | 0 <= i < |ps| ensures KeyOf(ps[i].origin) in FirstSeen(ps) {
        if i < |u| { assert KeyOf(u[i].origin) in FirstSeen(u); }
      }
    }
  }

  lemma KeptStep(ps: seq<Pair>)
    requires ps != []
    ensures var u, k := ps[..|ps| - 1], KeyOf(ps[|ps| - 1].origin);
            Kept(ps) == if k in FirstSeen(u) || |Kept(u)| >= LIMIT then Kept(u) else Kept(u) + [k]
  {
  }

  /** For every sequence of insertions the table holds exactly the first 4096 distinct
      origins. */
  lemma {:induction false} HoldsFirstOrigins(ps: seq<Pair>)
    ensures var t := InsertAll(ps);
            && |t.origins| == |Kept(ps)| <= LIMIT
            && forall k :: k in t.origins <==> k in Kept(ps)
  {
    if ps != [] {
      var u, k := ps[..|ps| - 1], KeyOf(ps[|ps| - 1].origin);
      HoldsFirstOrigins(u);
      KeptStep(ps);
      if k in FirstSeen(u) && |Kept(u)| < LIMIT { assert Kept(u) == FirstSeen(u); }
    }
  }

  lemma SeenEarlier(u: seq<Pair>, j: nat)
    requires j < |u|
    ensures KeyOf(u[j].origin) in FirstSeen(u)
  {
    FirstSeenDistinct(u);
  }

  /** And each of them leads to the target of its first insertion. */
  lemma {:induction false} OriginsAreFirstWins(ps: seq<Pair>, k: Key)
    requires k in InsertAll(ps).origins
    ensures exists i: nat :: IsFirst(ps, i, k) && InsertAll(ps).origins[k] == AddrPortOf(ps[i].target)
  {
    var n := |ps| - 1;
    var u, x := ps[..n], ps[n];
    if k in InsertAll(u).origins {
      OriginsAreFirstWins(u, k);
      var i: nat :| IsFirst(u, i, k) && InsertAll(u).origins[k] == AddrPortOf(u[i].target);
      assert IsFirst(ps, i, k);
    } else {
      HoldsFirstOrigins(u);
      assert k == KeyOf(x.origin) && k !in FirstSeen(u);
      forall j | 0 <= j < n ensures KeyOf(ps[j].origin) != k { SeenEarlier(u, j); }
      assert IsFirst(ps, n, k);
    }
  }

  predicate Accepts(t: Table, origin: Metadata) {
    KeyOf(origin) !in t.origins && |t.origins| < LIMIT
  }

  /** The i-th insertion was accepted as a new origin, and may be restored from a. */
  ghost predicate Feeds(ps: seq<Pair>, i: nat, a: AddrPort) {
    && i < |ps| && IsValid(AddrPortOf(ps[i].origin)) && AddrPortOf(ps[i].target) == a
    && Accepts(InsertAll(ps[..i]), ps[i].origin)
  }

  ghost predicate FirstFeeds(ps: seq<Pair>, i: nat, a: AddrPort) {
    Feeds(ps, i, a) && forall j: nat :: j < i ==> !Feeds(ps, j, a)
  }

  lemma FeedsPrefix(ps: seq<Pair>, i: nat, a: AddrPort)
    requires ps != [] && i < |ps| - 1
    ensures Feeds(ps, i, a) <==> Feeds(ps[..|ps| - 1], i, a)
  {
    assert ps[..|ps| - 1][..i] == ps[..i];
  }

  /** Replies from a target are restored to the first accepted origin for it, and a target
      without one is left alone. */
  lemma {:induction false} ReverseIsFirstWins(ps: seq<Pair>, a: AddrPort)
    ensures if a in InsertAll(ps).reverse
            then exists i: nat :: FirstFeeds(ps, i, a) && InsertAll(ps).reverse[a] == AddrPortOf(ps[i].origin)
            else forall i: nat :: !Feeds(ps, i, a)
  {
    if ps != [] {
      var n := |ps| - 1;
      var u := ps[..n];
      ReverseIsFirstWins(u, a);
      forall i: nat | i < n ensures Feeds(ps, i, a) <==> Feeds(u, i, a) { FeedsPrefix(ps, i, a); }
      if a in InsertAll(u).reverse {
        var i: nat :| FirstFeeds(u, i, a) && InsertAll(u).reverse[a] == AddrPortOf(u[i].origin);
        assert FirstFeeds(ps, i, a);
      } else if a in InsertAll(ps).reverse {
        assert FirstFeeds(ps, n, a);
      }
    }
  }

  /** A mapping in force stays in force, whatever is inserted later. */
  lemma {:induction false} MappingsAreStable(ps: seq<Pair>, more: seq<Pair>, k: Key, a: AddrPort)
    ensures k in InsertAll(ps).origins ==>
              k in InsertAll(ps + more).origins && InsertAll(ps + more).origins[k] == InsertAll(ps).origins[k]
    ensures a in InsertAll(ps).reverse ==>
              a in InsertAll(ps + more).reverse && InsertAll(ps + more).reverse[a] == InsertAll(ps).reverse[a]
  {
    if more == [] {
      assert ps + more == ps;
    } else {
      var rest := more[..|more| - 1];
      MappingsAreStable(ps, rest, k, a);
      assert (ps + more)[..|ps + more| - 1] == ps + rest;
    }
  }

  /** Once a mapping is inserted for a new origin and a new target, and whatever is inserted
      before and after it, packets for the origin go to the target, and a reply from the target,
      in plain or IPv4-mapped form, comes back as the origin. */
  lemma RoundTrip(before: seq<Pair>, origin: Metadata, target: Metadata, after: seq<Pair>, from: AddrPort)
    requires var t := InsertAll(before);
      KeyOf(origin) !in t.origins && |t.origins| < LIMIT && AddrPortOf(target) !in t.reverse
    requires IsValid(AddrPortOf(origin)) && Unmap(from.addr) == Unmap(target.ip) && from.port == target.port
    ensures var t := InsertAll(before + [Pair(origin, target)] + after);
      Target(t, origin) == Some(AddrPortOf(target)) && Restore(t, from) == AddrPortOf(origin)
  {
    var ps := before + [Pair(origin, target)];
    assert ps[..|ps| - 1] == before;
    MappingsAreStable(ps, after, KeyOf(origin), AddrPortOf(target));
  }

  /** Two destinations are one origin exactly if the ports agree and so do the hosts, or, without
      a host, the addresses up to IPv4 mapping. */
  lemma KeysSeparate(a: Metadata, b: Metadata)
    ensures KeyOf(a) == KeyOf(b) <==>
              a.port == b.port && a.host == b.host && (a.host == "" ==> Unmap(a.ip) == Unmap(b.ip))
  {
  }

  /** After any insertions a destination has a target exactly if it is among the first 4096 origins,
      and then that of the first insertion of the same destination; and an address no accepted
      insertion had as its target is given back as it is, unmapped. */
  lemma Answers(ps: seq<Pair>, m: Metadata, a: AddrPort)
    ensures var t := InsertAll(ps);
      && (Target(t, m).Some? <==> KeyOf(m) in Kept(ps))
      && (Target(t, m).Some? ==> exists i: nat ::
            IsFirst(ps, i, KeyOf(m)) && Target(t, m).value == AddrPort(Unmap(ps[i].target.ip), ps[i].target.port))
      && ((forall i: nat :: !Feeds(ps, i, AddrPort(Unmap(a.addr), a.port))) ==>
            Restore(t, a) == AddrPort(Unmap(a.addr), a.port))
      && (forall i: nat :: FirstFeeds(ps, i, AddrPort(Unmap(a.addr), a.port)) ==>
            Restore(t, a) == AddrPort(Unmap(ps[i].origin.ip), ps[i].origin.port))
  {
    HoldsFirstOrigins(ps);
    if Target(InsertAll(ps), m).Some? { OriginsAreFirstWins(ps, KeyOf(m)); }
    ReverseIsFirstWins(ps, AddrPort(Unmap(a.addr), a.port));
  }
}
