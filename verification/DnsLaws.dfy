/** What alias records mean, told on names, labels and records: how a DNAME rewrites a name, what
    one hop is, and what single records lead to. */
module DnsLaws {
  import opened DnsAlias
  import opened DnsDname
  import opened DnsTerminal

  // -------------------------------------------------------------------------- the names

  /** A key is the name without one trailing dot, with its capitals in lower case. */
  lemma KeyIs(name: string)
    ensures var n := if name != "" && name[|name| - 1] == '.' then |name| - 1 else |name|;
      && |Key(name)| == n
      && forall i :: 0 <= i < n ==>
           Key(name)[i] as int == if 'A' <= name[i] <= 'Z' then name[i] as int + 32 else name[i] as int
  {
    LowerAt(if name != "" && name[|name| - 1] == '.' then name[..|name| - 1] else name);
  }

  lemma {:induction false} LowerAt(s: string)
    ensures forall i :: 0 <= i < |s| ==>
              Lower(s)[i] as int == if 'A' <= s[i] <= 'Z' then s[i] as int + 32 else s[i] as int
  {
    if s != [] { LowerAt(s[1..]); }
  }

  // ------------------------------------------------------------------------- the DNAMEs

  /** The labels of the name are these, in front of those of the owner, and neither is empty. */
  predicate Under(split: Split, name: string, o: string, a: seq<string>) {
    a != [] && split(o) != [] && split(name) == a + split(o)
  }

  /** A DNAME replaces the owner's labels by the target's and keeps all those in front. */
  lemma Rewrites(split: Split, dn: Aliases, name: string, o: string, a: seq<string>)
    requires o in dn && Under(split, name, o, a)
    ensures Sub(split, dn, name, o) == Some(Join(a + split(dn[o].target)))
  {
    var nl, ol := split(name), split(o);
    assert nl[|nl| - |ol|..] == ol && nl[..|nl| - |ol|] == a;
  }

  /** It applies to the names properly under its owner, and to no others. */
  lemma AppliesExactly(split: Split, dn: Aliases, name: string, o: string)
    ensures Applies(split, dn, name, o) <==> o in dn && exists a :: Under(split, name, o, a)
  {
    var nl, ol := split(name), split(o);
    if Applies(split, dn, name, o) {
      assert nl == nl[..|nl| - |ol|] + ol;
      assert Under(split, name, o, nl[..|nl| - |ol|]);
    }
    if o in dn {
      forall a | Under(split, name, o, a) ensures Applies(split, dn, name, o) { Rewrites(split, dn, name, o, a); }
    }
  }

  /** No owner with more labels has the name under it. */
  ghost predicate Longest(split: Split, dn: Aliases, name: string, o: string) {
    forall q, b :: q in dn && Under(split, name, q, b) ==> |split(q)| <= |split(o)|
  }

  lemma LongestIsHighest(split: Split, dn: Aliases, name: string, o: string, a: seq<string>)
    requires o in dn && Under(split, name, o, a) && Longest(split, dn, name, o)
    ensures Highest(split, dn, name, o)
  {
    Rewrites(split, dn, name, o, a);
    forall q ensures !Higher(split, dn, name, o, q) { AppliesExactly(split, dn, name, q); }
  }

  // ---------------------------------------------------------------------------- one hop

  /** With a DNAME owner above the name a hop follows the longest such owner, and agrees with a
      CNAME of the name; its TTL is within those of the records it follows. */
  lemma DnameHop(split: Split, cn: Aliases, dn: Aliases, name: string, h: Hop, o: string, a: seq<string>)
    requires IsHop(split, cn, dn, name, h) && o in dn && Under(split, name, o, a) && Longest(split, dn, name, o)
    ensures h.Go? || h.Dead?
    ensures h.Go? ==> h.next == Join(a + split(dn[o].target)) && h.ttl <= dn[o].ttl
    ensures h.Go? && name in cn ==> h.next == cn[name].target && h.ttl <= cn[name].ttl
    ensures name in cn && cn[name].target != Join(a + split(dn[o].target)) ==> h.Dead?
  {
    var c :| IsChoice(split, dn, name, c) && h == Combine(cn, name, c);
    LongestIsHighest(split, dn, name, o, a);
    Rewrites(split, dn, name, o, a);
    assert Applies(split, dn, name, o);
  }

  /** Without one a hop is the CNAME of the name, or there is none. */
  lemma NoDnameHop(split: Split, cn: Aliases, dn: Aliases, name: string, h: Hop)
    requires IsHop(split, cn, dn, name, h) && forall o, a :: o in dn ==> !Under(split, name, o, a)
    ensures h == if name in cn then Go(cn[name].target, cn[name].ttl) else End
  {
    forall o ensures !Applies(split, dn, name, o) { AppliesExactly(split, dn, name, o); }
    var c :| IsChoice(split, dn, name, c) && h == Combine(cn, name, c);
    assert !BestClash(split, dn, name);
  }

  /** With a single owner above the name there is exactly one hop, at that owner's TTL or the
      CNAME's, whichever is less. */
  lemma OnlyOwnerHop(split: Split, cn: Aliases, dn: Aliases, name: string, o: string, a: seq<string>)
    requires o in dn && Under(split, name, o, a)
    requires forall q, b :: q in dn && Under(split, name, q, b) ==> q == o
    ensures var next := Join(a + split(dn[o].target));
      IsHop(split, cn, dn, name,
            if name !in cn then Go(next, dn[o].ttl)
            else if cn[name].target != next then Dead
            else Go(next, if cn[name].ttl < dn[o].ttl then cn[name].ttl else dn[o].ttl))
  {
    var next := Join(a + split(dn[o].target));
    Rewrites(split, dn, name, o, a);
    forall q | Applies(split, dn, name, q) ensures q == o { AppliesExactly(split, dn, name, q); }
    LongestIsHighest(split, dn, name, o, a);
    assert Finds(split, dn, name, next, dn[o].ttl) && !BestClash(split, dn, name);
    assert IsChoice(split, dn, name, Use(next, dn[o].ttl));
  }

  // -------------------------------------------------------------------- single records

  /** A chain of one hop, over maps in which no two DNAME owners apply to the same name, is what
      the function returns in every order. */
  lemma OneHopAnswers(split: Split, rs: seq<RR>, query: string, goal: string, ttl: TTL, cn: Aliases, dn: Aliases,
                      order: Ranging, r: Option<(string, TTL)>)
    requires query != "" && query != goal && Acceptable(ReadAll(rs))
    requires Maps(ReadAll(rs), ByCname, cn) && Maps(ReadAll(rs), ByDname, dn) && |dn| <= 1
    requires IsHop(split, cn, dn, query, Go(goal, ttl)) && IsHop(split, cn, dn, goal, End)
    requires Ranges(order) && Outcome(split, rs, query, order, r)
    ensures r == Some((goal, ttl))
  {
    OneHopChain(split, cn, dn, query, goal, ttl);
    Follows(split, rs, query, cn, dn, [query, goal], [ttl], order, r);
  }

  lemma OneHopChain(split: Split, cn: Aliases, dn: Aliases, query: string, goal: string, ttl: TTL)
    requires query != goal && IsHop(split, cn, dn, query, Go(goal, ttl)) && IsHop(split, cn, dn, goal, End)
    ensures Complete(split, cn, dn, query, [query, goal], [ttl]) && Least([ttl]) == ttl
  {
    assert Step(split, cn, dn, [query, goal], [ttl], 0);
    assert [ttl][..0] == [];
  }

  /** Where at most one DNAME owner is known the complete chain is what the function follows. */
  lemma Follows(split: Split, rs: seq<RR>, query: string, cn: Aliases, dn: Aliases, p: seq<string>, ts: seq<TTL>,
                order: Ranging, r: Option<(string, TTL)>)
    requires query != "" && Acceptable(ReadAll(rs))
    requires Maps(ReadAll(rs), ByCname, cn) && Maps(ReadAll(rs), ByDname, dn) && |dn| <= 1
    requires Complete(split, cn, dn, query, p, ts) && Ranges(order) && Outcome(split, rs, query, order, r)
    ensures r == Some((p[|p| - 1], Least(ts)))
  {
    var c, d :| Maps(ReadAll(rs), ByCname, c) && Maps(ReadAll(rs), ByDname, d)
                && r == Walk(split, c, d, order, [query], MAX_TTL);
    MapsUnique(ReadAll(rs), ByCname, c, cn);
    MapsUnique(ReadAll(rs), ByDname, d, dn);
    WalkFollows(split, cn, dn, order, query, [query], [], p, ts);
    forall i | 0 <= i < |p| ensures ScanAll(split, dn, p[i], order(dn, p[i])).At? {
      HopInIs(split, cn, dn, p[i], order(dn, p[i]));
      OneOwner(dn);
      NoClash(split, dn, p[i]);
      ChainGoesOn(split, cn, dn, query, p, ts, i);
    }
  }

  lemma OneOwner(dn: Aliases)
    requires |dn| <= 1
    ensures forall o, p :: o in dn && p in dn ==> o == p
  {
    forall o, p | o in dn && p in dn ensures o == p {
      assert dn.Keys == {o} + (dn.Keys - {o});
      assert |dn.Keys - {o}| == 0;
    }
  }

  /** One DNAME record, and a name any number of labels under its owner with nothing to follow
      after: the answer keeps those labels in front of the target's, at the record's TTL. */
  lemma OneDname(split: Split, owner: string, target: string, ttl: TTL, query: string, a: seq<string>,
                 order: Ranging, r: Option<(string, TTL)>)
    requires Key(owner) != "" && (Key(target) != "" || target == ".")
    requires query != "" && Under(split, query, Key(owner), a)
    requires var goal := Join(a + split(Key(target))); goal != query && forall b :: !Under(split, goal, Key(owner), b)
    requires Ranges(order) && Outcome(split, [DNAME(owner, target, ttl, true)], query, order, r)
    ensures r == Some((Join(a + split(Key(target))), ttl))
  {
    var rs := [DNAME(owner, target, ttl, true)];
    var x := Rec(ByDname, Key(owner), Key(target), ttl);
    var dn: Aliases := map[Key(owner) := Alias(Key(target), ttl)];
    var goal := Join(a + split(Key(target)));
    assert ReadAll(rs) == [x];
    OneRecord(x);
    OnlyOwnerHop(split, map[], dn, query, Key(owner), a);
    NothingApplies(split, map[], dn, goal);
    OneHopAnswers(split, rs, query, goal, ttl, map[], dn, order, r);
  }

  /** One CNAME record: the answer for its owner is its target, at its TTL. */
  lemma OneCname(split: Split, owner: string, target: string, ttl: TTL, order: Ranging, r: Option<(string, TTL)>)
    requires Key(owner) != "" && (Key(target) != "" || target == ".") && Key(target) != Key(owner)
    requires Ranges(order) && Outcome(split, [CNAME(owner, target, ttl, true)], Key(owner), order, r)
    ensures r == Some((Key(target), ttl))
  {
    var rs := [CNAME(owner, target, ttl, true)];
    var x := Rec(ByCname, Key(owner), Key(target), ttl);
    var cn: Aliases := map[Key(owner) := Alias(Key(target), ttl)];
    assert ReadAll(rs) == [x];
    OneRecord(x);
    assert FindsNone(split, map[], Key(owner));
    assert IsChoice(split, map[], Key(owner), NoDname);
    NothingApplies(split, cn, map[], Key(target));
    OneHopAnswers(split, rs, Key(owner), Key(target), ttl, cn, map[], order, r);
  }

  /** Without alias records of class IN the answer is the question itself, with the greatest TTL. */
  lemma NoAliases(split: Split, rs: seq<RR>, query: string, order: Ranging, r: Option<(string, TTL)>)
    requires query != "" && forall x :: x in rs ==> x.Other? || !x.inet
    requires Ranges(order) && Outcome(split, rs, query, order, r)
    ensures r == Some((query, 0xffff_ffff))
  {
    var us := ReadAll(rs);
    forall i | 0 <= i < |us| ensures us[i] == Ignored { assert rs[i] in rs; }
    NothingRead(us);
    NothingApplies(split, map[], map[], query);
    assert [query][|[query]| - 1] == query;
    Follows(split, rs, query, map[], map[], [query], [], order, r);
  }

  /** An alias record of class IN without a usable owner or target fails the whole message. */
  lemma BadRecordFails(split: Split, rs: seq<RR>, query: string, order: Ranging, r: Option<(string, TTL)>, x: RR)
    requires x in rs && !x.Other? && x.inet && (Key(x.owner) == "" || (Key(x.target) == "" && x.target != "."))
    requires Outcome(split, rs, query, order, r)
    ensures r.None?
  {
    var i :| 0 <= i < |rs| && rs[i] == x;
    assert ReadAll(rs)[i] == Bad;
  }

  lemma NothingApplies(split: Split, cn: Aliases, dn: Aliases, name: string)
    requires name !in cn && forall o, a :: o in dn ==> !Under(split, name, o, a)
    ensures IsHop(split, cn, dn, name, End)
  {
    forall o ensures !Applies(split, dn, name, o) { AppliesExactly(split, dn, name, o); }
    assert IsChoice(split, dn, name, NoDname);
  }

  lemma OneRecord(x: Rec)
    requires x.Rec?
    ensures var m: Aliases := map[x.owner := Alias(x.target, x.ttl)];
      && Acceptable([x]) && Maps([x], x.sort, m) && |m| == 1
      && Maps([x], if x.sort.ByCname? then ByDname else ByCname, map[])
  {
    assert [x][..0] == [] && CountAliases([x]) == 1;
    assert x in [x] && From(x, x.sort, x.owner);
  }

  lemma {:induction false} NothingRead(us: seq<Rec>)
    requires forall i :: 0 <= i < |us| ==> us[i] == Ignored
    ensures Acceptable(us) && Maps(us, ByCname, map[]) && Maps(us, ByDname, map[])
  {
    if us != [] { NothingRead(us[..|us| - 1]); }
  }
}
