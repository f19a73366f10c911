/** The alias records of a DNS answer, as dns/middleware.go reads them for the kernel-direct
    observer: CNAME records (section 3.6.2 of RFC 1034) and DNAME records (sections 2.2 and
    3.1 of RFC 6672). Splitting a name into labels is a library call and a parameter. */
module DnsAlias {

  datatype Option<T> = None | Some(value: T)

  type TTL = t: nat | t < 0x1_0000_0000

  /** A record of the answer section. Only class IN counts. */
  datatype RR =
    | CNAME(owner: string, target: string, ttl: TTL, inet: bool)
    | DNAME(owner: string, target: string, ttl: TTL, inet: bool)
    | Other

  datatype Alias = Alias(target: string, ttl: TTL)

  type Aliases = map<string, Alias>

  function Lower(s: string): (r: string)
    ensures |r| == |s|
  {
    if s == [] then []
    else [if 'A' <= s[0] <= 'Z' then s[0] + 32 as char else s[0]] + Lower(s[1..])
  }

  /** `dnsNameKey`: one trailing dot off, lower case. */
  function Key(name: string): string {
    Lower(if name != "" && name[|name| - 1] == '.' then name[..|name| - 1] else name)
  }

  predicate TargetOk(name: string) { Key(name) != "" || name == "." }

  const MAX_RECORDS: nat := 256

  // ----------------------------------------------------- what the records say, in any order

  datatype Sort = ByCname | ByDname

  /** A record as the observer reads it: an alias between keys, one without a usable owner
      or target, or nothing of interest. */
  datatype Rec = Rec(sort: Sort, owner: string, target: string, ttl: TTL) | Bad | Ignored

  function Read(r: RR): Rec {
    if r.Other? || !r.inet then Ignored
    else if !TargetOk(r.target) || Key(r.owner) == "" then Bad
    else Rec(if r.CNAME? then ByCname else ByDname, Key(r.owner), Key(r.target), r.ttl)
  }

  function ReadAll(rs: seq<RR>): (r: seq<Rec>)
    ensures |r| == |rs| && forall i :: 0 <= i < |rs| ==> r[i] == Read(rs[i])
  {
    seq(|rs|, i requires 0 <= i < |rs| => Read(rs[i]))
  }

  predicate Conflict(r: Rec, q: Rec) {
    r.Rec? && q.Rec? && r.sort == q.sort && r.owner == q.owner && r.target != q.target
  }

  function CountAliases(rs: seq<Rec>): nat {
    if rs == [] then 0 else CountAliases(rs[..|rs| - 1]) + if rs[|rs| - 1].Rec? then 1 else 0
  }

  /** Well named, conflict-free and not too many. */
  ghost predicate Acceptable(rs: seq<Rec>) {
    && Bad !in rs
    && (forall r, q :: r in rs && q in rs ==> !Conflict(r, q))
    && CountAliases(rs) <= MAX_RECORDS
  }

  predicate From(r: Rec, s: Sort, o: string) { r.Rec? && r.sort == s && r.owner == o }

  /** The map holds, for every owner, the target and the least TTL of its records. */
  ghost predicate Maps(rs: seq<Rec>, s: Sort, m: Aliases) {
    && (forall r :: r in rs && r.Rec? && r.sort == s ==> Within(r, m))
    && (forall o :: o in m ==> Attained(rs, s, m, o))
  }

  predicate Within(r: Rec, m: Aliases)
    requires r.Rec?
  {
    r.owner in m && m[r.owner].target == r.target && m[r.owner].ttl <= r.ttl
  }

  ghost predicate Attained(rs: seq<Rec>, s: Sort, m: Aliases, o: string)
    requires o in m
  {
    exists r :: r in rs && From(r, s, o) && r.ttl == m[o].ttl
  }

  lemma MapsUnique(rs: seq<Rec>, s: Sort, m: Aliases, m': Aliases)
    requires Maps(rs, s, m) && Maps(rs, s, m')
    ensures m == m'
  {
    forall o ensures o in m <==> o in m' ensures o in m && o in m' ==> m[o] == m'[o] {
      if o in m { assert Attained(rs, s, m, o); }
      if o in m' { assert Attained(rs, s, m', o); }
    }
  }

  /** Neither depends on the order of the records. */
  lemma RecordsPermute(rs: seq<Rec>, qs: seq<Rec>)
    requires multiset(rs) == multiset(qs)
    ensures Acceptable(rs) <==> Acceptable(qs)
    ensures forall s, m :: Maps(rs, s, m) <==> Maps(qs, s, m)
  {
    forall r ensures r in rs <==> r in qs { assert r in multiset(rs) <==> r in multiset(qs); }
    CountPermutes(rs, qs);
    forall s, m, o | o in m ensures Attained(rs, s, m, o) <==> Attained(qs, s, m, o) { }
  }

  lemma {:induction false} CountPermutes(rs: seq<Rec>, qs: seq<Rec>)
    requires multiset(rs) == multiset(qs)
    ensures CountAliases(rs) == CountAliases(qs)
    decreases |rs|
  {
    if rs == [] {
      assert |multiset(qs)| == 0;
    } else {
      var n := |rs| - 1;
      var x := rs[n];
      assert x in multiset(qs);
      var i :| 0 <= i < |qs| && qs[i] == x;
      CountRemove(qs, i);
      RemoveOne(rs, n);
      RemoveOne(qs, i);
      assert rs[..n] + rs[n + 1..] == rs[..n];
      CountPermutes(rs[..n], qs[..i] + qs[i + 1..]);
    }
  }

  lemma RemoveOne(qs: seq<Rec>, i: nat)
    requires i < |qs|
    ensures multiset(qs[..i] + qs[i + 1..]) == multiset(qs) - multiset{qs[i]}
  {
    assert qs == qs[..i] + [qs[i]] + qs[i + 1..];
  }

  lemma {:induction false} CountRemove(qs: seq<Rec>, i: nat)
    requires i < |qs|
    ensures CountAliases(qs) == CountAliases(qs[..i] + qs[i + 1..]) + if qs[i].Rec? then 1 else 0
    decreases |qs|
  {
    var n := |qs| - 1;
    var ps := qs[..i] + qs[i + 1..];
    if i == n {
      assert ps == qs[..n];
    } else {
      CountRemove(qs[..n], i);
      assert ps[..|ps| - 1] == qs[..n][..i] + qs[..n][i + 1..];
    }
  }

  // ------------------------------------------------------------------ building the maps

  /** `mergeKernelDirectAlias`. */
  method Merge(m0: Aliases, owner: string, alias: Alias) returns (ok: bool, m: Aliases)
    ensures ok <==> owner != "" && (owner in m0 ==> m0[owner].target == alias.target)
    ensures ok ==> m == m0[owner := if owner in m0 && m0[owner].ttl <= alias.ttl then m0[owner] else alias]
  {
    m := m0;
    if owner == "" { return false, m; }
    if owner in m {
      if m[owner].target != alias.target { return false, m; }
      if alias.ttl < m[owner].ttl { m := m[owner := alias]; }
      else { assert m == m[owner := m[owner]]; }
      return true, m;
    }
    m := m[owner := alias];
    ok := true;
  }

  lemma MapsSkip(rs: seq<Rec>, r: Rec, s: Sort, m: Aliases)
    requires Maps(rs, s, m) && !(r.Rec? && r.sort == s)
    ensures Maps(rs + [r], s, m)
  {
    forall o | o in m ensures Attained(rs + [r], s, m, o) {
      assert Attained(rs, s, m, o);
      var q :| q in rs && From(q, s, o) && q.ttl == m[o].ttl;
      assert q in rs + [r];
    }
  }

  lemma MapsAdd(rs: seq<Rec>, r: Rec, m: Aliases)
    requires r.Rec? && Maps(rs, r.sort, m) && (r.owner in m ==> m[r.owner].target == r.target)
    ensures var a := Alias(r.target, r.ttl);
            Maps(rs + [r], r.sort, m[r.owner := if r.owner in m && m[r.owner].ttl <= a.ttl then m[r.owner] else a])
  {
    var k, a := r.owner, Alias(r.target, r.ttl);
    var m' := m[k := if k in m && m[k].ttl <= a.ttl then m[k] else a];
    forall o | o in m' ensures Attained(rs + [r], r.sort, m', o) {
      if o == k && !(k in m && m[k].ttl <= a.ttl) {
        assert r in rs + [r] && From(r, r.sort, o);
      } else {
        assert Attained(rs, r.sort, m, o);
        var q :| q in rs && From(q, r.sort, o) && q.ttl == m[o].ttl;
        assert q in rs + [r];
      }
    }
    forall q | q in rs + [r] && q.Rec? && q.sort == r.sort ensures Within(q, m') {
      if q in rs { assert Within(q, m); }
    }
  }

  /** A conflict with the map is a conflict with a record. */
  lemma MapConflict(rs: seq<Rec>, r: Rec, m: Aliases)
    requires r.Rec? && Maps(rs, r.sort, m)
    ensures (r.owner in m && m[r.owner].target != r.target) <==> exists q :: q in rs && Conflict(q, r)
  {
    if r.owner in m {
      assert Attained(rs, r.sort, m, r.owner);
      var q :| q in rs && From(q, r.sort, r.owner) && q.ttl == m[r.owner].ttl;
      assert Within(q, m);
    }
    forall q | q in rs && Conflict(q, r) ensures r.owner in m && m[r.owner].target != r.target { assert Within(q, m); }
  }

  lemma AcceptableStep(rs: seq<Rec>, r: Rec)
    ensures Acceptable(rs + [r]) <==> Acceptable(rs) && r != Bad && CountAliases(rs + [r]) <= MAX_RECORDS
                                      && forall q :: q in rs ==> !Conflict(q, r)
    ensures CountAliases(rs + [r]) == CountAliases(rs) + if r.Rec? then 1 else 0
  {
    assert (rs + [r])[..|rs|] == rs;
    assert r in rs + [r];
    forall q | q in rs ensures q in rs + [r] { }
    forall p, q | p in rs + [r] && q in rs + [r] && Conflict(p, q) ensures Conflict(q, p) { }
  }

  lemma {:induction false} AcceptablePrefix(rs: seq<Rec>, i: nat)
    requires i <= |rs| && Acceptable(rs)
    ensures Acceptable(rs[..i])
    decreases |rs| - i
  {
    if i < |rs| {
      AcceptablePrefix(rs, i + 1);
      assert rs[..i + 1] == rs[..i] + [rs[i]];
      AcceptableStep(rs[..i], rs[i]);
    } else {
      assert rs[..i] == rs;
    }
  }

  /** Acceptable records have maps. */
  lemma {:induction false} MapsExist(rs: seq<Rec>, s: Sort) returns (m: Aliases)
    requires Acceptable(rs)
    ensures Maps(rs, s, m)
  {
    m := map[];
    if rs != [] {
      var n := |rs| - 1;
      var u, r := rs[..n], rs[n];
      assert rs == u + [r];
      AcceptablePrefix(rs, n);
      AcceptableStep(u, r);
      m := MapsExist(u, s);
      if r.Rec? && r.sort == s {
        MapConflict(u, r, m);
        MapsAdd(u, r, m);
        var a := Alias(r.target, r.ttl);
        m := m[r.owner := if r.owner in m && m[r.owner].ttl <= a.ttl then m[r.owner] else a];
      } else {
        MapsSkip(u, r, s, m);
      }
    }
  }

  /** One record is merged into the map of its sort. */
  method AddRecord(cn0: Aliases, dn0: Aliases, r: Rec, ghost rs: seq<Rec>) returns (ok: bool, cn: Aliases, dn: Aliases)
    requires Maps(rs, ByCname, cn0) && Maps(rs, ByDname, dn0) && r.Rec? && r.owner != ""
    ensures ok <==> forall q :: q in rs ==> !Conflict(q, r)
    ensures ok ==> Maps(rs + [r], ByCname, cn) && Maps(rs + [r], ByDname, dn)
  {
    cn, dn := cn0, dn0;
    if r.sort.ByCname? {
      MapConflict(rs, r, cn0);
      ok, cn := Merge(cn0, r.owner, Alias(r.target, r.ttl));
      if ok { MapsAdd(rs, r, cn0); MapsSkip(rs, r, ByDname, dn0); }
    } else {
      MapConflict(rs, r, dn0);
      ok, dn := Merge(dn0, r.owner, Alias(r.target, r.ttl));
      if ok { MapsAdd(rs, r, dn0); MapsSkip(rs, r, ByCname, cn0); }
    }
  }

  /** The first loop of `kernelDirectTerminal`: it gets through exactly when the records
      are acceptable, and then the maps hold targets and least TTLs. */
  method Collect(rs: seq<RR>) returns (ok: bool, cn: Aliases, dn: Aliases)
    ensures ok <==> Acceptable(ReadAll(rs))
    ensures ok ==> Maps(ReadAll(rs), ByCname, cn) && Maps(ReadAll(rs), ByDname, dn)
  {
    cn, dn := map[], map[];
    var count := 0;
    ghost var qs := ReadAll(rs);
    for i := 0 to |rs|
      invariant Acceptable(qs[..i]) && count == CountAliases(qs[..i])
      invariant Maps(qs[..i], ByCname, cn) && Maps(qs[..i], ByDname, dn)
    {
      var r := Read(rs[i]);
      assert qs[..i + 1] == qs[..i] + [r];
      AcceptableStep(qs[..i], r);
      if Acceptable(qs) { AcceptablePrefix(qs, i + 1); }
      match r {
        case Ignored =>
          MapsSkip(qs[..i], r, ByCname, cn);
          MapsSkip(qs[..i], r, ByDname, dn);
        case Bad => return false, cn, dn;
        case Rec(_, _, _, _) =>
          var merged;
          merged, cn, dn := AddRecord(cn, dn, r, qs[..i]);
          if !merged { return false, cn, dn; }
          count := count + 1;
          if count > MAX_RECORDS { return false, cn, dn; }
      }
    }
    assert qs[..|rs|] == qs;
    ok := true;
  }
}
