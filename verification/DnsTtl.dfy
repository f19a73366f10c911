/** TTLs of cached DNS messages (dns/util.go, dns/resolver.go): the lifetime of an entry and
    the ageing of its records, in uint32 arithmetic that wraps around. TTLs are those of
    section 3.2.1 of RFC 1035; the TTL field of an OPT record is none (section 6.1.3 of
    RFC 6891). */
module DnsTtl {
  import opened NetAddr

  const TWO32: int := 0x1_0000_0000

  type U32 = n: int | 0 <= n < TWO32

  function Sub32(a: U32, b: U32): U32 { if a >= b then a - b else a - b + TWO32 }

  datatype RR =
    | Nil
    | A(name: string, cls: nat, ttl: U32, bytes: seq<Byte>)
    | AAAA(name: string, cls: nat, ttl: U32, bytes: seq<Byte>)
    | OPT(ttl: U32)
    | Other(name: string, ttl: U32, data: nat)

  function WithTTL(r: RR, ttl: U32): RR { if r.Nil? then r else r.(ttl := ttl) }

  // ---------------------------------------------------------------------- the least TTL

  ghost predicate Least(rs: seq<RR>, m: U32) {
    && (forall r :: r in rs && !r.Nil? ==> m <= r.ttl)
    && (exists r :: r in rs && !r.Nil? && r.ttl == m)
  }

  predicate AllNil(rs: seq<RR>) { forall r :: r in rs ==> r.Nil? }

  function MinTTL(rs: seq<RR>): U32 {
    if rs == [] then 0
    else
      var n := |rs| - 1;
      var m := MinTTL(rs[..n]);
      if rs[n].Nil? then m else if AllNil(rs[..n]) || rs[n].ttl < m then rs[n].ttl else m
  }

  lemma {:induction false} MinIsLeast(rs: seq<RR>)
    ensures if AllNil(rs) then MinTTL(rs) == 0 else Least(rs, MinTTL(rs))
  {
    if rs != [] {
      var n := |rs| - 1;
      var u := rs[..n];
      assert rs == u + [rs[n]];
      MinIsLeast(u);
      if !AllNil(u) {
        var r :| r in u && !r.Nil? && r.ttl == MinTTL(u);
        assert r in rs;
      }
      assert rs[n] in rs;
    }
  }

  /** `minimalTTL`, and the loop inside `minTTLAll`. */
  method MinimalTTL(rs: seq<RR>) returns (min: U32)
    ensures min == MinTTL(rs)
    ensures if AllNil(rs) then min == 0 else Least(rs, min)
  {
    min := 0;
    var found := false;
    for i := 0 to |rs|
      invariant found == !AllNil(rs[..i]) && min == MinTTL(rs[..i])
    {
      assert rs[..i + 1][..i] == rs[..i] && rs[..i + 1] == rs[..i] + [rs[i]];
      if rs[i].Nil? { continue; }
      assert rs[i] in rs[..i + 1];
      if !found || rs[i].ttl < min {
        min := rs[i].ttl;
        found := true;
      }
    }
    assert rs[..|rs|] == rs;
    MinIsLeast(rs);
  }

  // --------------------------------------------------------------------------- ageing

  /** The TTL of one record after `updateTTL`, where m is the least of its section. */
  function Aged(h: U32, m: U32, left: U32): U32 {
    var next := Sub32(h, Sub32(m, left));
    if next < 1 then 1 else if next > h then h else next
  }

  function AgedAll(rs: seq<RR>, left: U32): (r: seq<RR>)
    ensures |r| == |rs|
  {
    seq(|rs|, i requires 0 <= i < |rs| =>
      if rs[i].Nil? then rs[i] else WithTTL(rs[i], Aged(rs[i].ttl, MinTTL(rs), left)))
  }

  /** `updateTTL`, in place. */
  method UpdateTTL(a: array<RR>, left: U32)
    modifies a
    ensures a[..] == AgedAll(old(a[..]), left)
  {
    if a.Length == 0 { return; }
    ghost var rs := a[..];
    var m := MinimalTTL(a[..]);
    var delta := Sub32(m, left);
    for i := 0 to a.Length
      invariant forall k :: 0 <= k < i ==> a[k] == AgedAll(rs, left)[k]
      invariant forall k :: i <= k < a.Length ==> a[k] == rs[k]
    {
      if a[i].Nil? { continue; }
      var next := Sub32(a[i].ttl, delta);
      if next < 1 { next := 1; } else if next > a[i].ttl { next := a[i].ttl; }
      a[i] := WithTTL(a[i], next);
    }
  }

  /** As long as no more time is left than the least TTL, nothing wraps: every record loses
      the same amount, down to 1. */
  lemma AgedIsShift(h: U32, m: U32, left: U32)
    requires m <= h && left <= m
    ensures Aged(h, m, left) == if h - (m - left) < 1 then 1 else h - (m - left)
  {
  }

  // --------------------------------------------------------------- storing and serving

  datatype Sections = Sections(answer: seq<RR>, ns: seq<RR>, extra: seq<RR>)

  const SERVFAIL_TTL: U32 := 5

  function WithoutOPT(rs: seq<RR>): seq<RR> {
    if rs == [] then []
    else WithoutOPT(rs[..|rs| - 1]) + if rs[|rs| - 1].OPT? then [] else [rs[|rs| - 1]]
  }

  /** `extraWithoutOPT`. */
  method ExtraWithoutOPT(extra: seq<RR>) returns (out: seq<RR>)
    ensures out == WithoutOPT(extra)
  {
    out := [];
    for i := 0 to |extra|
      invariant out == WithoutOPT(extra[..i])
    {
      assert extra[..i + 1][..i] == extra[..i];
      if extra[i].OPT? { continue; }
      out := out + [extra[i]];
    }
    assert extra[..|extra|] == extra;
  }

  /** `dropOPT`, in place: the first n are the records left, the rest is cleared. */
  method DropOPT(a: array<RR>) returns (n: nat)
    modifies a
    ensures n <= a.Length
    ensures a[..n] == WithoutOPT(old(a[..]))
    ensures forall k :: n <= k < a.Length ==> a[k].Nil?
  {
    ghost var rs := a[..];
    n := 0;
    for i := 0 to a.Length
      invariant n <= i
      invariant a[..n] == WithoutOPT(rs[..i])
      invariant forall k :: i <= k < a.Length ==> a[k] == rs[k]
    {
      assert rs[..i + 1][..i] == rs[..i];
      if a[i].OPT? { continue; }
      ghost var before := a[..n];
      a[n] := a[i];
      n := n + 1;
      assert a[..n] == before + [rs[i]];
    }
    assert rs[..a.Length] == rs;
    for i := n to a.Length
      invariant a[..n] == WithoutOPT(rs)
      invariant forall k :: n <= k < i ==> a[k].Nil?
    {
      ghost var before := a[..n];
      a[i] := Nil;
      assert a[..n] == before;
    }
  }

  lemma {:induction false} WithoutOPTMembers(rs: seq<RR>, r: RR)
    ensures r in WithoutOPT(rs) <==> r in rs && !r.OPT?
  {
    if rs != [] {
      var n := |rs| - 1;
      WithoutOPTMembers(rs[..n], r);
      assert rs == rs[..n] + [rs[n]];
    }
  }

  lemma {:induction false} NothingToStrip(rs: seq<RR>)
    requires forall r :: r in rs ==> !r.OPT?
    ensures WithoutOPT(rs) == rs
  {
    if rs != [] {
      NothingToStrip(rs[..|rs| - 1]);
    }
  }

  /** Stripping a stripped section changes nothing. */
  lemma WithoutOPTTwice(rs: seq<RR>)
    ensures WithoutOPT(WithoutOPT(rs)) == WithoutOPT(rs)
  {
    var u := WithoutOPT(rs);
    forall r | r in u ensures !r.OPT? { WithoutOPTMembers(rs, r); }
    NothingToStrip(u);
  }

  /** `putMsgToCache`: what is stored, and for how many seconds; 0 means not at all. */
  function Stored(s: Sections): Sections { s.(extra := WithoutOPT(s.extra)) }

  function Lifetime(s: Sections, servfail: bool): U32 {
    if servfail then SERVFAIL_TTL
    else var t := Stored(s); MinTTL(t.answer + t.ns + t.extra)
  }

  /** The cache keeps the expiry in whole seconds; serving asks for the whole seconds left. */
  function Expiry(put: real, life: U32): int { (put + life as real).Floor }

  function Left(put: real, life: U32, now: real): int { (Expiry(put, life) as real - now).Floor }

  lemma LeftWithinLife(put: real, life: U32, now: real)
    requires put <= now <= Expiry(put, life) as real
    ensures 0 <= Left(put, life, now) <= life
    ensures Left(put, life, now) as real <= life as real - (now - put)
  {
  }

  /** The most a record may still claim: its TTL less the time since it was stored, or 1. */
  function Allowed(h: U32, elapsed: real): real {
    if h as real - elapsed < 1.0 then 1.0 else h as real - elapsed
  }

  lemma SectionMinAtLeastLife(rs: seq<RR>, all: seq<RR>, r: RR)
    requires (forall x :: x in rs ==> x in all) && r in rs && !r.Nil?
    ensures MinTTL(all) <= MinTTL(rs) <= r.ttl
  {
    MinIsLeast(rs);
    MinIsLeast(all);
    var w :| w in rs && !w.Nil? && w.ttl == MinTTL(rs);
    assert w in all;
  }

  /** A message other than SERVFAIL, stored in full and served before it expires: no record
      claims more than its own TTL less the time passed, or 1. */
  lemma FullEntryNeverOverstates(s: Sections, put: real, now: real, rs: seq<RR>, i: nat)
    requires var t := Stored(s); rs == t.answer || rs == t.ns || rs == t.extra
    requires i < |rs| && !rs[i].Nil?
    requires put <= now <= Expiry(put, Lifetime(s, false)) as real
    ensures 0 <= Left(put, Lifetime(s, false), now) < TWO32
    ensures AgedAll(rs, Left(put, Lifetime(s, false), now))[i].ttl as real <= Allowed(rs[i].ttl, now - put)
  {
    var t := Stored(s);
    var all := t.answer + t.ns + t.extra;
    var life := Lifetime(s, false);
    LeftWithinLife(put, life, now);
    assert rs[i] in rs;
    SectionMinAtLeastLife(rs, all, rs[i]);
    var left := Left(put, life, now);
    AgedIsShift(rs[i].ttl, MinTTL(rs), left);
  }

  /** And the differences between the TTLs of a section survive, up to the clamp at 1; their
      order always does. */
  lemma FullEntryKeepsDifferences(s: Sections, put: real, now: real, rs: seq<RR>, i: nat, j: nat)
    requires var t := Stored(s); rs == t.answer || rs == t.ns || rs == t.extra
    requires i < |rs| && j < |rs| && !rs[i].Nil? && !rs[j].Nil?
    requires put <= now <= Expiry(put, Lifetime(s, false)) as real
    ensures 0 <= Left(put, Lifetime(s, false), now) < TWO32
    ensures var aged := AgedAll(rs, Left(put, Lifetime(s, false), now));
      && !aged[i].Nil? && !aged[j].Nil?
      && (aged[i].ttl > 1 && aged[j].ttl > 1 ==> aged[i].ttl - aged[j].ttl == rs[i].ttl - rs[j].ttl)
      && (rs[i].ttl <= rs[j].ttl ==> aged[i].ttl <= aged[j].ttl)
  {
    var t := Stored(s);
    var all := t.answer + t.ns + t.extra;
    var life := Lifetime(s, false);
    LeftWithinLife(put, life, now);
    assert rs[i] in rs && rs[j] in rs;
    SectionMinAtLeastLife(rs, all, rs[i]);
    SectionMinAtLeastLife(rs, all, rs[j]);
    var left := Left(put, life, now);
    AgedIsShift(rs[i].ttl, MinTTL(rs), left);
    AgedIsShift(rs[j].ttl, MinTTL(rs), left);
  }

  /** The record, served from a SERVFAIL kept in full at that time, claims no more than it may. */
  ghost predicate Within(rs: seq<RR>, i: nat, put: real, now: real)
    requires i < |rs| && !rs[i].Nil? && put <= now <= Expiry(put, SERVFAIL_TTL) as real
  {
    LeftWithinLife(put, SERVFAIL_TTL, now);
    AgedAll(rs, Left(put, SERVFAIL_TTL, now))[i].ttl as real <= Allowed(rs[i].ttl, now - put)
  }

  /** For a section of a SERVFAIL kept in full, which is for 5 seconds whatever its records say,
      the same bound holds at all times before it expires if and only if the section's least TTL
      is at least 5 or the record claims at most 1. */
  lemma ServfailExactly(rs: seq<RR>, i: nat)
    requires i < |rs| && !rs[i].Nil?
    ensures (forall put, now :: put <= now <= Expiry(put, SERVFAIL_TTL) as real ==> Within(rs, i, put, now))
       <==> MinTTL(rs) >= SERVFAIL_TTL || rs[i].ttl <= 1
  {
    var m, h := MinTTL(rs), rs[i].ttl;
    assert rs[i] in rs;
    SectionMinAtLeastLife(rs, rs, rs[i]);
    if m < SERVFAIL_TTL && h >= 2 {
      var now := (SERVFAIL_TTL - m) as real;
      assert Expiry(0.0, SERVFAIL_TTL) == SERVFAIL_TTL && Left(0.0, SERVFAIL_TTL, now) == m;
      assert Aged(h, m, m) == h;
      assert !Within(rs, i, 0.0, now);
    } else {
      forall put, now | put <= now <= Expiry(put, SERVFAIL_TTL) as real ensures Within(rs, i, put, now) {
        LeftWithinLife(put, SERVFAIL_TTL, now);
        var left := Left(put, SERVFAIL_TTL, now);
        if h > 1 { AgedIsShift(h, m, left); } else { AtMostOne(h, m, left); }
      }
    }
  }

  lemma AtMostOne(h: U32, m: U32, left: U32)
    requires m <= h <= 1
    ensures Aged(h, m, left) <= 1
  {
  }

  /** OPT records are stripped one by one; the others stay in order. */
  lemma {:induction false} WithoutOPTConcat(a: seq<RR>, b: seq<RR>)
    ensures WithoutOPT(a + b) == WithoutOPT(a) + WithoutOPT(b)
  {
    if b == [] {
      assert a + b == a;
    } else {
      WithoutOPTConcat(a, b[..|b| - 1]);
      assert (a + b)[..|a + b| - 1] == a + b[..|b| - 1];
    }
  }

  lemma WithoutOPTOne(r: RR)
    ensures WithoutOPT([r]) == if r.OPT? then [] else [r]
  {
    assert [r][..0] == [];
  }

  /** Rounding costs less than two seconds: one for the expiry, one for the time left. */
  lemma LeftIsClose(put: real, life: U32, now: real)
    ensures Left(put, life, now) as real <= put + life as real - now < Left(put, life, now) as real + 2.0
  {
  }

  /** A record of a full entry is served with what it had, less the time by which the section's
      least TTL exceeds the time left, and never with less than 1; so it loses no more than the
      excess of that least TTL over the lifetime, the time passed, and two seconds. */
  lemma FullEntryLosesNoMore(s: Sections, put: real, now: real, rs: seq<RR>, i: nat)
    requires var t := Stored(s); rs == t.answer || rs == t.ns || rs == t.extra
    requires i < |rs| && !rs[i].Nil? && put <= now <= Expiry(put, Lifetime(s, false)) as real
    ensures var life := Lifetime(s, false); var left := Left(put, life, now);
      && 0 <= left < TWO32 && !AgedAll(rs, left)[i].Nil?
      && AgedAll(rs, left)[i].ttl == (var h := rs[i].ttl - (MinTTL(rs) - left); if h < 1 then 1 else h)
      && AgedAll(rs, left)[i].ttl as real > rs[i].ttl as real - (MinTTL(rs) - life) as real - (now - put) - 2.0
  {
    var t := Stored(s);
    var life := Lifetime(s, false);
    LeftWithinLife(put, life, now);
    assert rs[i] in rs;
    SectionMinAtLeastLife(rs, t.answer + t.ns + t.extra, rs[i]);
    AgedIsShift(rs[i].ttl, MinTTL(rs), Left(put, life, now));
    LeftIsClose(put, life, now);
  }

  /** With more time left than the section's least TTL, as a SERVFAIL can have, a TTL stays what it
      is unless the sum wraps around; it never grows past 1. */
  lemma AgedStays(h: U32, m: U32, left: U32)
    requires m <= h && left > m
    ensures h + (left - m) < TWO32 ==> Aged(h, m, left) == h
    ensures Aged(h, m, left) <= if h < 1 then 1 else h
  {
  }
}
