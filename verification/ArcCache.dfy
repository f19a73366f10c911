/** The cache of common/arc as it is written: entries are shared objects found through a
    map, every call updates them and the four lists in place. A list names its entries by
    key. Each method is proved against the function of the same name in ArcModel. */
module ArcCache {
  import opened ArcModel
  import opened ArcProofs
  import opened ArcRuns

  class Node<K, V> {
    const key: K
    var value: V
    var dead: bool
    var expires: int
    var ll: Place

    constructor (key: K, value: V, expires: int)
      ensures this.key == key && View() == Entry(value, false, expires, Nowhere)
    {
      this.key, this.value, this.dead, this.expires, this.ll := key, value, false, expires, Nowhere;
    }

    function View(): Entry<V> reads this { Entry(value, dead, expires, ll) }
  }

  lemma {:induction false} RemoveLast<T>(l: seq<T>)
    requires l != [] && NoDup(l)
    ensures Remove(l, Last(l)) == l[..|l| - 1]
  {
    if |l| > 1 {
      assert Last(l[1..]) == Last(l);
      RemoveLast(l[1..]);
      assert [l[0]] + l[1..][..|l| - 2] == l[..|l| - 1];
    }
  }

  class Arc<K(==, !new), V> {
    const zero: V
    var c: int
    var p: int
    var len: int
    var t1: seq<K>
    var b1: seq<K>
    var t2: seq<K>
    var b2: seq<K>
    var cache: map<K, Node<K, V>>
    ghost var repr: set<Node<K, V>>

    /** The map holds every entry under its own key. */
    ghost predicate Wired()
      reads this
    {
      forall k :: k in cache ==> cache[k].key == k && cache[k] in repr
    }

    ghost function Views(): map<K, Entry<V>>
      requires Wired()
      reads this, repr
    {
      map k | k in cache :: cache[k].View()
    }

    /** The value this object stands for. */
    ghost function Contents(): Cache<K, V>
      requires Wired()
      reads this, repr
    {
      Cache(c, p, len, t1, b1, t2, b2, Views())
    }

    ghost predicate Valid()
      reads this, repr
    {
      Wired() && Inv(Contents())
    }

    constructor (size: int, zero: V)
      ensures Wired() && Contents() == Init(size) && this.zero == zero && fresh(repr)
      ensures size >= 1 ==> Valid()
    {
      this.zero := zero;
      c, p, len, t1, b1, t2, b2, cache, repr := size, 0, 0, [], [], [], [], map[], {};
      new;
      assert Views() == map[];
    }

    method Clear()
      requires Valid()
      modifies this
      ensures Valid() && Contents() == ArcModel.Clear(old(Contents())) && repr <= old(repr)
    {
      p, t1, b1, t2, b2, len, cache := 0, [], [], [], [], 0, map[];
      InitInv<K, V>(c);
      assert Views() == map[];
      assert Contents() == Init<K, V>(c);
    }

    /** `detach` and `setMRU` of entry.go: out of the list it is in, to the front of another. */
    method SetMRU(x: Node<K, V>, to: Place)
      requires !to.Nowhere?
      modifies this`t1, this`b1, this`t2, this`b2, x`ll
      ensures x.ll == to
      ensures t1 == (if to.T1? then [x.key] else []) + (if old(x.ll).T1? then Remove(old(t1), x.key) else old(t1))
      ensures b1 == (if to.B1? then [x.key] else []) + (if old(x.ll).B1? then Remove(old(b1), x.key) else old(b1))
      ensures t2 == (if to.T2? then [x.key] else []) + (if old(x.ll).T2? then Remove(old(t2), x.key) else old(t2))
      ensures b2 == (if to.B2? then [x.key] else []) + (if old(x.ll).B2? then Remove(old(b2), x.key) else old(b2))
    {
      match x.ll {
        case Nowhere =>
        case T1 => t1 := Remove(t1, x.key);
        case B1 => b1 := Remove(b1, x.key);
        case T2 => t2 := Remove(t2, x.key);
        case B2 => b2 := Remove(b2, x.key);
      }
      x.ll := to;
      match to {
        case T1 => t1 := [x.key] + t1;
        case B1 => b1 := [x.key] + b1;
        case T2 => t2 := [x.key] + t2;
        case B2 => b2 := [x.key] + b2;
      }
    }

    /** The back of the list is one entry, which knows its place. */
    ghost predicate AtBack(l: seq<K>, at: Place)
      requires Wired()
      reads this, repr
    {
      l != [] ==> Last(l) in cache && cache[Last(l)].ll == at && Remove(l, Last(l)) == l[..|l| - 1]
    }

    lemma BackOf(l: seq<K>, at: Place)
      requires Wired() && Holds(l, at, Views())
      ensures AtBack(l, at)
    {
      if l != [] {
        RemoveLast(l);
        assert Last(l) in l;
        assert Views()[Last(l)].ll == at;
      }
    }

    /** The victim becomes a ghost at the front of `to`. */
    method Evict(lru: Node<K, V>, to: Place)
      requires Wired() && lru.key in cache && cache[lru.key] == lru && !to.Nowhere?
      modifies this`t1, this`b1, this`t2, this`b2, this`len, lru
      ensures Wired() && len == old(len) - 1 && Views() == Vacate(old(Views()), lru.key, zero, to)
      ensures t1 == (if to.T1? then [lru.key] else []) + (if old(lru.ll).T1? then Remove(old(t1), lru.key) else old(t1))
      ensures b1 == (if to.B1? then [lru.key] else []) + (if old(lru.ll).B1? then Remove(old(b1), lru.key) else old(b1))
      ensures t2 == (if to.T2? then [lru.key] else []) + (if old(lru.ll).T2? then Remove(old(t2), lru.key) else old(t2))
      ensures b2 == (if to.B2? then [lru.key] else []) + (if old(lru.ll).B2? then Remove(old(b2), lru.key) else old(b2))
    {
      lru.value := zero;
      lru.dead := true;
      len := len - 1;
      SetMRU(lru, to);
    }

    method Replace(fromB2: bool)
      requires Wired() && (TakesT1(Contents(), fromB2) || t2 != []) && AtBack(t1, T1) && AtBack(t2, T2)
      modifies this`t1, this`b1, this`t2, this`b2, this`len, repr
      ensures Wired() && Contents() == ArcModel.Replace(old(Contents()), fromB2, zero).value
    {
      if |t1| > 0 && (|t1| > p || (fromB2 && |t1| == p)) {
        Evict(cache[Last(t1)], B1);
      } else {
        Evict(cache[Last(t2)], B2);
      }
    }

    method DelLRU(w: Place)
      requires w.T1? || w.B1? || w.B2?
      requires Wired() && ArcModel.DelLRU(Contents(), w).Done?
      requires match w case T1 => AtBack(t1, T1) case B1 => AtBack(b1, B1) case B2 => AtBack(b2, B2)
      modifies this`t1, this`b1, this`b2, this`len, this`cache
      ensures Wired() && Contents() == ArcModel.DelLRU(old(Contents()), w).value
      ensures cache == old(cache) - {Last(old(match w case T1 => t1 case B1 => b1 case B2 => b2))}
    {
      var lru: K;
      match w {
        case T1 => lru := Last(t1); t1 := Remove(t1, lru);
        case B1 => lru := Last(b1); b1 := Remove(b1, lru);
        case B2 => lru := Last(b2); b2 := Remove(b2, lru);
      }
      len := len - 1;
      cache := cache - {lru};
      assert Views() == old(Views()) - {lru};
    }

    /** All the calls below need of the four lists: each back is in its place. */
    ghost predicate Backs()
      requires Wired()
      reads this, repr
    {
      AtBack(t1, T1) && AtBack(b1, B1) && AtBack(t2, T2) && AtBack(b2, B2)
    }

    lemma FiledBacks()
      requires Wired() && Filed(Contents())
      ensures Backs()
    {
      BackOf(t1, T1); BackOf(b1, B1); BackOf(t2, T2); BackOf(b2, B2);
    }

    /** A deletion from b1 or b2 followed by a replacement. */
    method DelReplace(w: Place)
      requires w.B1? || w.B2?
      requires Wired() && Backs() && ArcModel.DelLRU(Contents(), w).Done?
      requires ArcModel.Replace(ArcModel.DelLRU(Contents(), w).value, false, zero).Done?
      modifies this`t1, this`b1, this`t2, this`b2, this`len, this`cache, repr
      ensures Wired() && cache.Keys <= old(cache).Keys
      ensures Done(Contents()) == ArcModel.Replace(ArcModel.DelLRU(old(Contents()), w).value, false, zero)
    {
      DelLRU(w);
      Replace(false);
    }

    /** What `req` deletes and replaces for an entry that is in no list. */
    method MakeRoom()
      requires Wired() && Backs() && ArcModel.MakeRoom(Contents(), zero).Done?
      modifies this`t1, this`b1, this`t2, this`b2, this`len, this`cache, repr
      ensures Wired() && Done(Contents()) == ArcModel.MakeRoom(old(Contents()), zero)
      ensures cache.Keys <= old(cache).Keys
    {
      if |t1| + |b1| == c {
        if |t1| < c {
          DelReplace(B1);
        } else {
          DelLRU(T1);
        }
      } else if |t1| + |b1| < c {
        if |t1| + |t2| + |b1| + |b2| >= c {
          if |t1| + |t2| + |b1| + |b2| == 2 * c {
            DelReplace(B2);
          } else {
            Replace(false);
          }
        }
      }
    }

    /** The adaptation of the target on a hit in b1 or b2. */
    method Tune(inB1: bool)
      requires Wired() && Tuned(Contents(), inB1).Done?
      modifies this`p
      ensures Done(Contents()) == Tuned(old(Contents()), inB1)
    {
      var d := 1;
      if inB1 {
        if |b1| < |b2| { d := |b2| / |b1|; }
        assert Adapt(|b1|, |b2|) == Done(d);
        p := if p + d < c then p + d else c;
      } else {
        if |b2| < |b1| { d := |b1| / |b2|; }
        assert Adapt(|b2|, |b1|) == Done(d);
        p := if p - d < 0 then 0 else p - d;
      }
      assert Views() == old(Views());
    }

    method MoveToT2(x: Node<K, V>)
      requires Wired() && x.key in cache && cache[x.key] == x
      modifies this`t1, this`b1, this`t2, this`b2, x`ll
      ensures Wired() && Contents() == ToT2(old(Contents()), x.key, old(x.View()))
    {
      SetMRU(x, T2);
      assert Views() == old(Views())[x.key := x.View()];
    }

    /** Cases II and III of `req`. */
    method HitGhost(x: Node<K, V>)
      requires Wired() && Backs() && x.key in cache && cache[x.key] == x && (x.ll.B1? || x.ll.B2?)
      requires ArcModel.HitGhost(Contents(), x.key, x.View(), zero).Done?
      modifies this`t1, this`b1, this`t2, this`b2, this`len, this`p, repr
      ensures Wired() && Done(Contents()) == ArcModel.HitGhost(old(Contents()), x.key, old(x.View()), zero)
    {
      Tune(x.ll.B1?);
      assert Views()[x.key] == x.View();
      Replace(x.ll.B2?);
      assert Views()[x.key] == x.View();
      MoveToT2(x);
    }

    /** `req` for an entry in the map, and for a new one that joins the map afterwards. */
    method Req(x: Node<K, V>)
      requires Wired() && Backs() && x.key in cache && cache[x.key] == x && !x.ll.Nowhere?
      requires ArcModel.Req(Contents(), x.key, x.View(), zero).Done?
      modifies this`t1, this`b1, this`t2, this`b2, this`len, this`p, repr
      ensures Wired() && Done(Contents()) == ArcModel.Req(old(Contents()), x.key, old(x.View()), zero)
    {
      if x.ll == T1 || x.ll == T2 {
        MoveToT2(x);
      } else {
        HitGhost(x);
      }
    }

    method Admit(x: Node<K, V>)
      requires Wired() && Backs() && x.key !in cache && x !in repr && x.ll.Nowhere?
      requires ArcModel.Req(Contents(), x.key, x.View(), zero).Done?
      modifies this`t1, this`b1, this`t2, this`b2, this`len, this`cache, this`repr, repr, x
      ensures Wired() && repr == old(repr) + {x}
      ensures Done(Contents()) == ArcModel.Req(old(Contents()), x.key, old(x.View()), zero)
    {
      MakeRoom();
      Enter(x);
    }

    /** The new entry goes to the front of t1 and into the map. */
    method Enter(x: Node<K, V>)
      requires Wired() && x.key !in cache && x !in repr && x.ll.Nowhere?
      modifies this`t1, this`b1, this`t2, this`b2, this`cache, this`repr, x
      ensures Wired() && repr == old(repr) + {x}
      ensures Contents() == ToT1(old(Contents()), x.key, old(x.View()))
    {
      SetMRU(x, T1);
      cache := cache[x.key := x];
      repr := repr + {x};
      assert Views() == old(Views())[x.key := x.View()];
    }

    method Insert(key: K, value: V, expires: int)
      requires Wired() && Backs() && key !in cache && ArcModel.Set(Contents(), key, value, expires, zero).Done?
      modifies this`t1, this`b1, this`t2, this`b2, this`len, this`cache, this`repr, repr
      ensures Wired() && fresh(repr - old(repr))
      ensures Done(Contents()) == ArcModel.Set(old(Contents()), key, value, expires, zero)
    {
      len := len + 1;
      var ent := new Node(key, value, expires);
      assert Contents() == Written(old(Contents()), key, ent.View());
      Admit(ent);
    }

    method Overwrite(ent: Node<K, V>, value: V, expires: int)
      requires Wired() && Backs() && ent.key in cache && cache[ent.key] == ent && !ent.ll.Nowhere?
      requires ArcModel.Set(Contents(), ent.key, value, expires, zero).Done?
      modifies this`t1, this`b1, this`t2, this`b2, this`len, this`p, repr
      ensures Wired() && Done(Contents()) == ArcModel.Set(old(Contents()), ent.key, value, expires, zero)
    {
      ghost var e := SetEntry(Contents(), ent.key, value, expires);
      if ent.dead { len := len + 1; }
      ent.value := value;
      ent.dead := false;
      ent.expires := expires;
      assert ent.View() == e;
      assert Contents() == Written(old(Contents()), ent.key, e);
      Req(ent);
    }

    method SetWithExpire(key: K, value: V, expires: int)
      requires Valid()
      modifies this, repr
      ensures Valid() && fresh(repr - old(repr))
      ensures Done(Contents()) == ArcModel.Set(old(Contents()), key, value, expires, zero)
    {
      SetKeeps(Contents(), key, value, expires, zero);
      FiledBacks();
      if key !in cache {
        Insert(key, value, expires);
      } else {
        assert !Views()[key].ll.Nowhere? by { assert key !in []; }
        Overwrite(cache[key], value, expires);
      }
    }

    /** `Get` and `GetWithExpire`: the value with its expiry, on a hit. */
    method Get(key: K) returns (hit: Option<(V, int)>)
      requires Valid()
      modifies this, repr
      ensures Valid() && repr == old(repr)
      ensures Done((Contents(), hit)) == ArcModel.Get(old(Contents()), key, zero)
    {
      GetKeeps(Contents(), key, zero);
      if key !in cache { return None; }
      FiledBacks();
      assert !Views()[key].ll.Nowhere? by { assert key !in []; }
      hit := Fetch(cache[key]);
    }

    method Fetch(ent: Node<K, V>) returns (hit: Option<(V, int)>)
      requires Wired() && Backs() && ent.key in cache && cache[ent.key] == ent && !ent.ll.Nowhere?
      requires ArcModel.Get(Contents(), ent.key, zero).Done?
      modifies this`t1, this`b1, this`t2, this`b2, this`len, this`p, repr
      ensures Wired() && Done((Contents(), hit)) == ArcModel.Get(old(Contents()), ent.key, zero)
    {
      assert Views()[ent.key] == ent.View();
      Req(ent);
      assert Views()[ent.key] == ent.View();
      hit := if ent.dead then None else Some((ent.value, ent.expires));
    }
  }
}
