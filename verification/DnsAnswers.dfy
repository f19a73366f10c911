/** `collectKernelDirectAnswers` of dns/middleware.go: the addresses at the end of the alias
    chain, each once, with the least TTL that applies to it. */
module DnsAnswers {
  import opened NetAddr
  import opened DnsAlias

  const MAX_ANSWERS: nat := 64

  /** An address record of the answer or additional section. */
  datatype Address = Address(owner: string, v6: bool, inet: bool, bytes: seq<Byte>, ttl: TTL)

  datatype Answer = Answer(addr: Addr, ttl: TTL)

  /** The record is for the terminal name, the class and the family asked for, and carries
      a usable address. */
  predicate Counts(r: Address, terminal: string, v6: bool, fake: Addr -> bool) {
    r.inet && r.v6 == v6 && Key(r.owner) == terminal
    && !Unmap(FromSlice(r.bytes)).Unset? && !fake(Unmap(FromSlice(r.bytes)))
  }

  /** What counts, in order, with the TTL cut to that of the path. */
  function Counted(rs: seq<Address>, terminal: string, v6: bool, pathTTL: TTL, fake: Addr -> bool): seq<Answer> {
    if rs == [] then []
    else
      var r := rs[|rs| - 1];
      Counted(rs[..|rs| - 1], terminal, v6, pathTTL, fake)
      + if Counts(r, terminal, v6, fake)
        then [Answer(Unmap(FromSlice(r.bytes)), if pathTTL < r.ttl then pathTTL else r.ttl)]
        else []
  }

  /** The addresses in the order of their first appearance. */
  function FirstSeen(l: seq<Answer>): seq<Addr> {
    if l == [] then []
    else
      var s := FirstSeen(l[..|l| - 1]);
      if l[|l| - 1].addr in s then s else s + [l[|l| - 1].addr]
  }

  ghost predicate LeastFor(l: seq<Answer>, a: Answer) {
    a in l && forall b :: b in l && b.addr == a.addr ==> a.ttl <= b.ttl
  }

  /** The first 64 different addresses, each with the least TTL it has anywhere. */
  ghost predicate Summary(l: seq<Answer>, r: seq<Answer>) {
    && |r| == (if |FirstSeen(l)| < MAX_ANSWERS then |FirstSeen(l)| else MAX_ANSWERS)
    && (forall i :: 0 <= i < |r| ==> r[i].addr == FirstSeen(l)[i] && LeastFor(l, r[i]))
  }

  lemma {:induction false} FirstSeenIs(l: seq<Answer>)
    ensures forall i, j :: 0 <= i < j < |FirstSeen(l)| ==> FirstSeen(l)[i] != FirstSeen(l)[j]
    ensures forall b :: b in l ==> b.addr in FirstSeen(l)
  {
    if l != [] {
      var u := l[..|l| - 1];
      FirstSeenIs(u);
      forall b | b in l ensures b.addr in FirstSeen(l) { if b in u { assert b.addr in FirstSeen(u); } }
    }
  }

  /** `appendKernelDirectAnswer`, for an address that is valid and not fake. */
  method Append(r0: seq<Answer>, a: Answer, ghost l: seq<Answer>) returns (r: seq<Answer>)
    requires Summary(l, r0)
    ensures Summary(l + [a], r)
  {
    assert (l + [a])[..|l|] == l;
    FirstSeenIs(l);
    var i := 0;
    while i < |r0|
      invariant 0 <= i <= |r0| && forall j :: 0 <= j < i ==> r0[j].addr != a.addr
    {
      if r0[i].addr == a.addr {
        r := if a.ttl < r0[i].ttl then r0[i := a] else r0;
        Updated(l, r0, a, i);
        return;
      }
      i := i + 1;
    }
    NotFound(l, r0, a);
    if |r0| >= MAX_ANSWERS { return r0; }
    r := r0 + [a];
  }

  lemma LeastGrows(l: seq<Answer>, a: Answer, b: Answer)
    requires LeastFor(l, b) && (b.addr == a.addr ==> b.ttl <= a.ttl)
    ensures LeastFor(l + [a], b)
  {
    assert forall x :: x in l + [a] <==> x in l || x == a;
  }

  lemma Updated(l: seq<Answer>, r0: seq<Answer>, a: Answer, i: nat)
    requires Summary(l, r0) && i < |r0| && r0[i].addr == a.addr
    ensures Summary(l + [a], if a.ttl < r0[i].ttl then r0[i := a] else r0)
  {
    assert (l + [a])[..|l|] == l;
    FirstSeenIs(l);
    var r := if a.ttl < r0[i].ttl then r0[i := a] else r0;
    assert FirstSeen(l + [a]) == FirstSeen(l);
    assert forall x :: x in l + [a] <==> x in l || x == a;
    forall k | 0 <= k < |r| ensures r[k].addr == FirstSeen(l)[k] && LeastFor(l + [a], r[k]) {
      if k != i || !(a.ttl < r0[i].ttl) { LeastGrows(l, a, r0[k]); }
    }
  }

  lemma FirstSeenGrows(l: seq<Answer>, a: Answer)
    ensures FirstSeen(l + [a]) == if a.addr in FirstSeen(l) then FirstSeen(l) else FirstSeen(l) + [a.addr]
  {
    assert (l + [a])[..|l|] == l;
  }

  lemma NotFound(l: seq<Answer>, r0: seq<Answer>, a: Answer)
    requires Summary(l, r0) && forall j :: 0 <= j < |r0| ==> r0[j].addr != a.addr
    ensures Summary(l + [a], if |r0| >= MAX_ANSWERS then r0 else r0 + [a])
  {
    FirstSeenGrows(l, a);
    forall k | 0 <= k < |r0| ensures r0[k].addr == FirstSeen(l + [a])[k] && LeastFor(l + [a], r0[k]) {
      LeastGrows(l, a, r0[k]);
    }
    if |r0| < MAX_ANSWERS {
      assert a.addr !in FirstSeen(l);
      FirstSeenIs(l);
      NewAddress(l, a);
    }
  }

  lemma NewAddress(l: seq<Answer>, a: Answer)
    requires forall b :: b in l ==> b.addr in FirstSeen(l)
    requires a.addr !in FirstSeen(l)
    ensures LeastFor(l + [a], a)
  {
    assert forall x :: x in l + [a] <==> x in l || x == a;
  }

  /** The loop over both sections, for a response that has a terminal name. */
  method Collect(rs: seq<Address>, terminal: string, v6: bool, pathTTL: TTL, fake: Addr -> bool)
    returns (r: seq<Answer>)
    ensures Summary(Counted(rs, terminal, v6, pathTTL, fake), r)
    ensures forall i :: 0 <= i < |r| ==> r[i].ttl <= pathTTL && !r[i].addr.Unset? && !fake(r[i].addr)
  {
    r := [];
    for i := 0 to |rs|
      invariant Summary(Counted(rs[..i], terminal, v6, pathTTL, fake), r)
    {
      assert rs[..i + 1][..i] == rs[..i];
      if Counts(rs[i], terminal, v6, fake) {
        var ttl := if pathTTL < rs[i].ttl then pathTTL else rs[i].ttl;
        r := Append(r, Answer(Unmap(FromSlice(rs[i].bytes)), ttl), Counted(rs[..i], terminal, v6, pathTTL, fake));
      } else {
        assert Counted(rs[..i + 1], terminal, v6, pathTTL, fake) == Counted(rs[..i], terminal, v6, pathTTL, fake);
      }
    }
    assert rs[..|rs|] == rs;
    CountedAreUsable(rs, terminal, v6, pathTTL, fake);
  }

  lemma {:induction false} CountedAreUsable(rs: seq<Address>, terminal: string, v6: bool, pathTTL: TTL,
                                            fake: Addr -> bool)
    ensures forall a :: a in Counted(rs, terminal, v6, pathTTL, fake) ==>
              a.ttl <= pathTTL && !a.addr.Unset? && !fake(a.addr)
  {
    if rs != [] { CountedAreUsable(rs[..|rs| - 1], terminal, v6, pathTTL, fake); }
  }

  /** Answers are counted record by record, in order. */
  lemma {:induction false} CountedConcat(a: seq<Address>, b: seq<Address>, terminal: string, v6: bool, pathTTL: TTL,
                                         fake: Addr -> bool)
    ensures Counted(a + b, terminal, v6, pathTTL, fake)
         == Counted(a, terminal, v6, pathTTL, fake) + Counted(b, terminal, v6, pathTTL, fake)
  {
    if b == [] {
      assert a + b == a;
    } else {
      CountedConcat(a, b[..|b| - 1], terminal, v6, pathTTL, fake);
      assert (a + b)[..|a + b| - 1] == a + b[..|b| - 1];
    }
  }

  /** A record counts exactly if it is of class IN and the family asked for, belongs to the terminal
      name, and holds 4 or 16 bytes of an address that is not fake; then with the lesser TTL. */
  lemma CountedOne(r: Address, terminal: string, v6: bool, pathTTL: TTL, fake: Addr -> bool)
    ensures var addr := Unmap(if |r.bytes| == 4 then V4(r.bytes) else V6(r.bytes));
      Counted([r], terminal, v6, pathTTL, fake) ==
        if r.inet && r.v6 == v6 && Key(r.owner) == terminal && (|r.bytes| == 4 || |r.bytes| == 16) && !fake(addr)
        then [Answer(addr, if r.ttl < pathTTL then r.ttl else pathTTL)] else []
  {
    assert [r][..0] == [];
  }
}
