/** What the resolver's cache keeps of a DNS message (dns/msg_cache.go): plain address answers
    as bare addresses, everything else in full; and what reading it back gives. */
module DnsCache {
  import opened NetAddr
  import opened DnsTtl

  datatype CacheKey = CacheKey(name: string, qtype: nat, qclass: nat)

  datatype Header = Header(rcode: nat, rest: nat)

  datatype Msg = Msg(hdr: Header, compress: bool, questions: seq<CacheKey>, body: Sections)

  datatype Entry = Full(msg: Msg) | Compact(ips: seq<Addr>, hdr: Header, compress: bool)

  datatype Option<T> = None | Some(value: T)

  const COMPACT_TTL: U32 := 0x4000_0000

  // ------------------------------------------------------------------ reading addresses

  predicate IsAddress(r: RR) { (r.A? || r.AAAA?) && (|r.bytes| == 4 || |r.bytes| == 16) }

  /** The addresses of an answer section, in its order. */
  function Addresses(rs: seq<RR>): seq<Addr> {
    if rs == [] then []
    else
      var n := |rs| - 1;
      Addresses(rs[..n]) + if IsAddress(rs[n]) then [Unmap(FromSlice(rs[n].bytes))] else []
  }

  /** `msgToIP`. */
  method MsgToIP(m: Msg) returns (ips: seq<Addr>)
    ensures ips == Addresses(m.body.answer)
  {
    var rs := m.body.answer;
    ips := [];
    for i := 0 to |rs|
      invariant ips == Addresses(rs[..i])
    {
      assert rs[..i + 1][..i] == rs[..i];
      if !rs[i].A? && !rs[i].AAAA? { continue; }
      var ip := FromSlice(rs[i].bytes);
      if ip.Unset? { continue; }
      ips := ips + [Unmap(ip)];
    }
    assert rs[..|rs|] == rs;
  }

  // -------------------------------------------------------------------------- encoding

  predicate Plain(key: CacheKey, r: RR) { IsAddress(r) && r.name == key.name }

  predicate Compactable(key: CacheKey, m: Msg) {
    && m.body.ns == [] && m.body.extra == [] && m.body.answer != []
    && forall i :: 0 <= i < |m.body.answer| ==> Plain(key, m.body.answer[i])
  }

  /** `compactIPs`: compact exactly when every answer is an address of the name asked for, and
      then nothing of the addresses or of the header is lost. */
  method CompactIPs(key: CacheKey, m: Msg) returns (e: Option<Entry>)
    ensures e.Some? <==> Compactable(key, m)
    ensures e.Some? <==> && m.body.ns == [] && m.body.extra == [] && m.body.answer != []
                         && forall i :: 0 <= i < |m.body.answer| ==>
                              var r := m.body.answer[i];
                              (r.A? || r.AAAA?) && r.name == key.name && (|r.bytes| == 4 || |r.bytes| == 16)
    ensures e.Some? ==> e.value == Compact(Addresses(m.body.answer), m.hdr, m.compress)
  {
    if |m.body.ns| > 0 || |m.body.extra| > 0 || |m.body.answer| == 0 { return None; }
    var rs := m.body.answer;
    var ips := [];
    for i := 0 to |rs|
      invariant forall k :: 0 <= k < i ==> Plain(key, rs[k])
      invariant ips == Addresses(rs[..i])
    {
      assert rs[..i + 1][..i] == rs[..i];
      if !rs[i].A? && !rs[i].AAAA? { return None; }
      if rs[i].name != key.name { return None; }
      var ip := FromSlice(rs[i].bytes);
      if ip.Unset? { return None; }
      ips := ips + [Unmap(ip)];
    }
    assert rs[..|rs|] == rs;
    e := Some(Compact(ips, m.hdr, m.compress));
  }

  /** `encodeCacheEntry`, of a message. Whichever form is kept, `peekIPs` of it is `msgToIP`
      of the message. */
  method Encode(key: CacheKey, m: Msg) returns (e: Entry)
    ensures e.Compact? <==> Compactable(key, m)
    ensures e.Compact? ==> m.body.ns == [] && m.body.extra == [] && m.body.answer != []
    ensures e.Full? ==> e.msg == m
    ensures e.Compact? ==> e == Compact(Addresses(m.body.answer), m.hdr, m.compress)
    ensures Peek(e) == Addresses(m.body.answer)
  {
    var c := CompactIPs(key, m);
    if c.Some? { return c.value; }
    e := Full(m);
  }

  /** `peekIPs`. */
  function Peek(e: Entry): seq<Addr> {
    if e.Compact? then e.ips else Addresses(e.msg.body.answer)
  }

  // --------------------------------------------------------------------------- storing

  const SERVFAIL: nat := 2
  const TXT: nat := 16
  const ACME: string := "_acme-challenge."

  /** The entry and the lifetime `putMsgToCache` settles on. */
  function Kept(key: CacheKey, m: Msg): Entry {
    var t := m.(body := Stored(m.body));
    if Compactable(key, t) then Compact(Addresses(t.body.answer), t.hdr, t.compress) else Full(t)
  }

  function Life(m: Msg): U32 { Lifetime(m.body, m.hdr.rcode == SERVFAIL) }

  /** `putMsgToCache` and the `SetWithExpire` it ends in. A SERVFAIL is always kept, for 5
      seconds; any other message for the least TTL among all its records, OPT aside, and not
      at all when that is 0 or when it has no record. An ACME challenge is never kept. */
  method Put(key: CacheKey, m: Msg) returns (kept: Option<(Entry, U32)>)
    ensures kept.None? <==> (key.qtype == TXT && ACME <= key.name) || Life(m) == 0
    ensures kept.Some? ==> kept.value == (Kept(key, m), Life(m))
    ensures kept.Some? && m.hdr.rcode != SERVFAIL ==>
      var t := Stored(m.body); Least(t.answer + t.ns + t.extra, kept.value.1)
    ensures kept.Some? ==> Peek(kept.value.0) == Addresses(m.body.answer)
  {
    if key.qtype == TXT && ACME <= key.name { return None; }
    var extra := ExtraWithoutOPT(m.body.extra);
    var t := m.(body := m.body.(extra := extra));
    var ttl: U32 := SERVFAIL_TTL;
    if t.hdr.rcode != SERVFAIL {
      ttl := MinimalTTL(t.body.answer + t.body.ns + t.body.extra);
    }
    if ttl == 0 { return None; }
    var stored := new RR[|extra|](i requires 0 <= i < |extra| => extra[i]);
    assert stored[..] == extra;
    var n := DropOPT(stored);
    WithoutOPTTwice(m.body.extra);
    var e := Encode(key, t.(body := t.body.(extra := stored[..n])));
    kept := Some((e, ttl));
  }

  // -------------------------------------------------------------------------- expanding

  /** The record `expand` makes of an address. */
  function Record(key: CacheKey, ip: Addr): RR {
    var u := Unmap(ip);
    match u
    case V4(bs) => A(key.name, key.qclass, COMPACT_TTL, bs)
    case V6(bs) => AAAA(key.name, key.qclass, COMPACT_TTL, bs)
    case Unset => AAAA(key.name, key.qclass, COMPACT_TTL, seq(16, _ => 0))
  }

  function Records(key: CacheKey, ips: seq<Addr>): (rs: seq<RR>)
    ensures |rs| == |ips|
  {
    seq(|ips|, i requires 0 <= i < |ips| => Record(key, ips[i]))
  }

  /** `expand`. */
  method Expand(key: CacheKey, e: Entry) returns (m: Msg)
    requires e.Compact?
    ensures m == Msg(e.hdr, e.compress, [key], Sections(Records(key, e.ips), [], []))
  {
    var answer := new RR[|e.ips|](_ => Nil);
    for i := 0 to |e.ips|
      invariant forall k :: 0 <= k < i ==> answer[k] == Record(key, e.ips[k])
    {
      var ip := Unmap(e.ips[i]);
      if ip.V4? {
        answer[i] := A(key.name, key.qclass, COMPACT_TTL, ip.bytes);
        continue;
      }
      answer[i] := AAAA(key.name, key.qclass, COMPACT_TTL, if ip.V6? then ip.bytes else seq(16, _ => 0));
    }
    assert answer[..] == Records(key, e.ips);
    m := Msg(e.hdr, e.compress, [key], Sections(answer[..], [], []));
  }

  /** Addresses read off a message: valid, and none an IPv4 address in IPv6 clothing. */
  predicate Clean(ip: Addr) {
    || (ip.V4? && |ip.bytes| == 4)
    || (ip.V6? && |ip.bytes| == 16 && ip.bytes[..12] != MAPPED)
  }

  lemma {:induction false} AddressesClean(rs: seq<RR>)
    ensures forall i :: 0 <= i < |Addresses(rs)| ==> Clean(Addresses(rs)[i])
  {
    if rs != [] { AddressesClean(rs[..|rs| - 1]); }
  }

  /** Expanding and reading again gives every address back, in order. */
  lemma {:induction false} ExpandThenRead(key: CacheKey, ips: seq<Addr>)
    requires forall i :: 0 <= i < |ips| ==> Clean(ips[i])
    ensures Addresses(Records(key, ips)) == ips
  {
    if ips != [] {
      var n := |ips| - 1;
      var rs := Records(key, ips);
      assert rs[..n] == Records(key, ips[..n]);
      ExpandThenRead(key, ips[..n]);
      assert Clean(ips[n]) && rs[n] == Record(key, ips[n]);
      assert ips == ips[..n] + [ips[n]];
    }
  }

  /** A compact entry of any message has the message's addresses, read directly or expanded. */
  lemma CompactKeepsAddresses(key: CacheKey, m: Msg)
    requires Compactable(key, m)
    ensures Addresses(Records(key, Addresses(m.body.answer))) == Addresses(m.body.answer)
  {
    AddressesClean(m.body.answer);
    ExpandThenRead(key, Addresses(m.body.answer));
  }

  lemma {:induction false} AddressOf(key: CacheKey, rs: seq<RR>)
    requires forall i :: 0 <= i < |rs| ==> Plain(key, rs[i])
    ensures |Addresses(rs)| == |rs|
    ensures forall i :: 0 <= i < |rs| ==> Plain(key, rs[i]) && Addresses(rs)[i] == Unmap(FromSlice(rs[i].bytes))
  {
    if rs != [] {
      AddressOf(key, rs[..|rs| - 1]);
      assert Plain(key, rs[|rs| - 1]);
    }
  }

  /** A record that is exactly what its address expands to, but for its TTL. */
  predicate Canonical(key: CacheKey, r: RR) {
    && (r.A? || r.AAAA?)
    && r.cls == key.qclass
    && if r.A? then |r.bytes| == 4 else |r.bytes| == 16 && r.bytes[..12] != MAPPED
  }

  lemma RecordExactly(key: CacheKey, r: RR)
    requires Plain(key, r)
    ensures WithTTL(Record(key, Unmap(FromSlice(r.bytes))), r.ttl) == r <==> Canonical(key, r)
  {
  }

  /** The expanded answer is the original one, up to TTLs, if and only if every record is of
      the class asked for, no A record is 16 bytes and no AAAA record is an IPv4 address. */
  lemma ExpandExactly(key: CacheKey, m: Msg)
    requires Compactable(key, m)
    ensures |Records(key, Addresses(m.body.answer))| == |m.body.answer|
    ensures SameButTTL(Records(key, Addresses(m.body.answer)), m.body.answer)
      <==> forall i :: 0 <= i < |m.body.answer| ==> Canonical(key, m.body.answer[i])
  {
    var rs := m.body.answer;
    AddressOf(key, rs);
    forall i | 0 <= i < |rs|
      ensures WithTTL(Records(key, Addresses(rs))[i], rs[i].ttl) == rs[i] <==> Canonical(key, rs[i])
    {
      assert Plain(key, rs[i]);
      RecordExactly(key, rs[i]);
    }
  }

  /** An AAAA record that holds an IPv4 address is kept compactly and comes back as an A record. */
  lemma ExpandCanDiffer(key: CacheKey, v4: seq<Byte>, r: RR)
    requires |v4| == 4 && r == AAAA(key.name, key.qclass, 9, MAPPED + v4)
    ensures var m := Msg(Header(0, 0), false, [key], Sections([r], [], []));
      && Compactable(key, m)
      && Records(key, Addresses(m.body.answer)) == [A(key.name, key.qclass, COMPACT_TTL, v4)]
  {
    assert (MAPPED + v4)[..12] == MAPPED && (MAPPED + v4)[12..] == v4;
    assert [r][..0] == [];
    assert Addresses([r]) == [V4(v4)];
  }

  ghost predicate SameButTTL(a: seq<RR>, b: seq<RR>) {
    |a| == |b| && forall i :: 0 <= i < |b| ==> !b[i].Nil? && WithTTL(a[i], b[i].ttl) == b[i]
  }

  // ----------------------------------------------------------------------------- serving

  /** The answer section served from an entry with `left` whole seconds to live. */
  function ServedAnswer(key: CacheKey, e: Entry, left: U32): seq<RR> {
    AgedAll(if e.Compact? then Records(key, e.ips) else e.msg.body.answer, left)
  }

  lemma CompactAged(key: CacheKey, ips: seq<Addr>, left: U32, i: nat)
    requires i < |ips|
    ensures AgedAll(Records(key, ips), left)[i].ttl
         == if left < 1 then 1 else if left > COMPACT_TTL then COMPACT_TTL else left
  {
    var rs := Records(key, ips);
    MinIsLeast(rs);
    assert rs[i] in rs && rs[i].ttl == COMPACT_TTL;
    assert forall r :: r in rs ==> r.ttl == COMPACT_TTL;
    assert MinTTL(rs) == COMPACT_TTL;
  }

  /** However a message other than SERVFAIL was kept, no answer served before it expires
      claims more than its original TTL less the time passed, or 1. */
  lemma AnswersNeverOverstate(key: CacheKey, m: Msg, e: Entry, put: real, now: real, i: nat)
    requires m.hdr.rcode != SERVFAIL
    requires e == Kept(key, m)
    requires i < |m.body.answer| && !m.body.answer[i].Nil?
    requires put <= now <= Expiry(put, Life(m)) as real
    ensures var left := Left(put, Life(m), now);
      && 0 <= left < TWO32
      && |ServedAnswer(key, e, left)| == |m.body.answer|
      && !ServedAnswer(key, e, left)[i].Nil?
      && ServedAnswer(key, e, left)[i].ttl as real <= Allowed(m.body.answer[i].ttl, now - put)
  {
    var rs := m.body.answer;
    LeftWithinLife(put, Life(m), now);
    FullEntryNeverOverstates(m.body, put, now, rs, i);
    var t := m.(body := Stored(m.body));
    if Compactable(key, t) {
      AddressOf(key, rs);
      CompactAged(key, Addresses(rs), Left(put, Life(m), now), i);
      assert rs[i] in rs;
      SectionMinAtLeastLife(rs, rs + t.body.ns + t.body.extra, rs[i]);
    }
  }

  /** SERVFAIL can overstate: a record of 3 seconds, a second later, still claims 3. */
  lemma ServfailOverstates(key: CacheKey, soa: RR)
    requires soa.Other? && soa.ttl == 3
    ensures var m := Msg(Header(SERVFAIL, 0), false, [key], Sections([soa], [], []));
      && Life(m) == 5 && Left(0.0, Life(m), 1.0) == 4
      && ServedAnswer(key, Kept(key, m), 4) == [soa]
      && 3.0 > Allowed(soa.ttl, 1.0)
  {
    var m := Msg(Header(SERVFAIL, 0), false, [key], Sections([soa], [], []));
    assert !Plain(key, m.body.answer[0]);
    assert MinTTL([soa]) == 3;
  }

  /** Kept compactly it can overstate at once: an address record of 1 second claims 5. */
  lemma CompactServfailOverstates(key: CacheKey, r: RR)
    requires r.A? && r.name == key.name && |r.bytes| == 4 && r.ttl == 1
    ensures var m := Msg(Header(SERVFAIL, 0), false, [key], Sections([r], [], []));
      && Kept(key, m).Compact? && Life(m) == 5 && Left(0.0, Life(m), 0.0) == 5
      && |ServedAnswer(key, Kept(key, m), 5)| == 1
      && !ServedAnswer(key, Kept(key, m), 5)[0].Nil? && ServedAnswer(key, Kept(key, m), 5)[0].ttl == 5
      && 5.0 > Allowed(r.ttl, 0.0)
  {
    AddressOf(key, [r]);
    CompactAged(key, Addresses([r]), 5, 0);
  }

  /** The i-th answer of a SERVFAIL, as the cache serves it at that time, claims no more than it
      may. */
  ghost predicate AnswerWithin(key: CacheKey, m: Msg, i: nat, put: real, now: real)
    requires i < |m.body.answer| && !m.body.answer[i].Nil?
    requires put <= now <= Expiry(put, SERVFAIL_TTL) as real
  {
    LeftWithinLife(put, SERVFAIL_TTL, now);
    var served := ServedAnswer(key, Kept(key, m), Left(put, SERVFAIL_TTL, now));
    i < |served| && !served[i].Nil? && served[i].ttl as real <= Allowed(m.body.answer[i].ttl, now - put)
  }

  /** What the cache serves of a SERVFAIL stays within the bound at all times before it expires if
      and only if, where it is kept compactly, the record claimed at least 5, and where it is kept
      in full, the least TTL of the answers is at least 5 or the record claimed at most 1. */
  lemma ServfailServedExactly(key: CacheKey, m: Msg, i: nat)
    requires m.hdr.rcode == SERVFAIL && i < |m.body.answer| && !m.body.answer[i].Nil?
    ensures Life(m) == SERVFAIL_TTL
    ensures (forall put, now :: put <= now <= Expiry(put, SERVFAIL_TTL) as real ==> AnswerWithin(key, m, i, put, now))
       <==> if Kept(key, m).Compact? then m.body.answer[i].ttl >= SERVFAIL_TTL
            else MinTTL(m.body.answer) >= SERVFAIL_TTL || m.body.answer[i].ttl <= 1
  {
    if Kept(key, m).Compact? {
      CompactServfail(key, m, i);
    } else {
      ServfailExactly(m.body.answer, i);
      forall put, now | put <= now <= Expiry(put, SERVFAIL_TTL) as real
        ensures AnswerWithin(key, m, i, put, now) <==> Within(m.body.answer, i, put, now)
      {
        LeftWithinLife(put, SERVFAIL_TTL, now);
      }
    }
  }

  lemma CompactServfail(key: CacheKey, m: Msg, i: nat)
    requires i < |m.body.answer| && !m.body.answer[i].Nil? && Kept(key, m).Compact?
    ensures (forall put, now :: put <= now <= Expiry(put, SERVFAIL_TTL) as real ==> AnswerWithin(key, m, i, put, now))
       <==> m.body.answer[i].ttl >= SERVFAIL_TTL
  {
    var rs := m.body.answer;
    AddressOf(key, rs);
    if rs[i].ttl < SERVFAIL_TTL {
      assert Expiry(0.0, SERVFAIL_TTL) == SERVFAIL_TTL && Left(0.0, SERVFAIL_TTL, 0.0) == SERVFAIL_TTL;
      CompactAged(key, Addresses(rs), SERVFAIL_TTL, i);
      assert !AnswerWithin(key, m, i, 0.0, 0.0);
    } else {
      forall put, now | put <= now <= Expiry(put, SERVFAIL_TTL) as real ensures AnswerWithin(key, m, i, put, now) {
        LeftWithinLife(put, SERVFAIL_TTL, now);
        CompactAged(key, Addresses(rs), Left(put, SERVFAIL_TTL, now), i);
      }
    }
  }

  /** Addresses are read record by record, in order, whatever stands between them. */
  lemma {:induction false} AddressesConcat(a: seq<RR>, b: seq<RR>)
    ensures Addresses(a + b) == Addresses(a) + Addresses(b)
  {
    if b == [] {
      assert a + b == a;
    } else {
      AddressesConcat(a, b[..|b| - 1]);
      assert (a + b)[..|a + b| - 1] == a + b[..|b| - 1];
    }
  }

  /** An A or AAAA record of 4 bytes is an IPv4 address, one of 16 an IPv6 address unless it is a
      mapped IPv4 one, and no other record is an address. */
  lemma AddressesOne(r: RR)
    ensures Addresses([r]) ==
      if !(r.A? || r.AAAA?) then []
      else if |r.bytes| == 4 then [V4(r.bytes)]
      else if |r.bytes| == 16 then [Unmap(V6(r.bytes))]
      else []
  {
    assert [r][..0] == [];
  }
}
