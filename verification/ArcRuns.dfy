/** Whole runs of the cache: panic freedom, agreement with a plain map, and the counter. */
module ArcRuns {
  import opened ArcModel
  import opened ArcProofs

  datatype Op<K, V> = SetOp(k: K, v: V, expires: int) | GetOp(k: K) | ClearOp

  function Do<K(==), V>(s: Cache<K, V>, op: Op<K, V>, zero: V): Outcome<Cache<K, V>> {
    match op
    case SetOp(k, v, x) => Set(s, k, v, x, zero)
    case GetOp(k) => (match Get(s, k, zero) case Panic => Panic case Done(r) => Done(r.0))
    case ClearOp => Done(Clear(s))
  }

  function Run<K(==), V>(c: int, ops: seq<Op<K, V>>, zero: V): Outcome<Cache<K, V>> {
    if ops == [] then Done(Init(c))
    else
      match Run(c, ops[..|ops| - 1], zero)
      case Panic => Panic
      case Done(s) => Do(s, ops[|ops| - 1], zero)
  }

  /** The reference: a plain map in which the last Set since Clear wins. */
  function LastSets<K(==), V>(ops: seq<Op<K, V>>): map<K, (V, int)> {
    if ops == [] then map[]
    else
      var m := LastSets(ops[..|ops| - 1]);
      match ops[|ops| - 1]
      case SetOp(k, v, x) => m[k := (v, x)]
      case GetOp(_) => m
      case ClearOp => map[]
  }

  /** Every live entry carries what the reference holds for its key. */
  ghost predicate Agrees<K(!new), V>(m: map<K, Entry<V>>, ref: map<K, (V, int)>) {
    forall k :: k in m && !m[k].dead ==> k in ref && ref[k] == (m[k].value, m[k].expires)
  }

  /** Overwriting an entry in its place moves no key between lists. */
  lemma WrittenFiled<K(!new), V>(s: Cache<K, V>, k: K, e: Entry<V>)
    requires Filed(s) && Marked(s.entries) && (k in s.entries ==> e.ll == s.entries[k].ll)
    ensures Filed(Written(s, k, e)) && MarkedBut(Written(s, k, e).entries, k)
  {
  }

  lemma SetKeeps<K(!new), V>(s: Cache<K, V>, k: K, v: V, x: int, zero: V)
    requires Inv(s)
    ensures Set(s, k, v, x, zero).Done?
    ensures var s' := Set(s, k, v, x, zero).value;
            && s'.c == s.c && Inv(s') && Spares(s.entries, s'.entries, k)
            && k in s'.entries && s'.entries[k].value == v && s'.entries[k].expires == x && !s'.entries[k].dead
            && (s'.entries[k].ll.T1? || s'.entries[k].ll.T2?)
  {
    var e := SetEntry(s, k, v, x);
    WrittenFiled(s, k, e);
    ReqKeeps(Written(s, k, e), k, e, zero);
  }

  lemma GetKeeps<K(!new), V>(s: Cache<K, V>, k: K, zero: V)
    requires Inv(s)
    ensures Get(s, k, zero).Done?
    ensures var (s', _) := Get(s, k, zero).value;
            && s'.c == s.c && Inv(s') && Spares(s.entries, s'.entries, k)
            && (k in s.entries <==> k in s'.entries)
            && (k in s.entries ==> s'.entries[k] == s.entries[k].(ll := T2))
  {
    if k in s.entries { ReqKeeps(s, k, s.entries[k], zero); }
  }

  /** Every run with capacity at least 1 is free of panics (no empty list is popped and
      nothing is divided by zero), ends in a state that satisfies the invariant, and
      agrees with the plain map. */
  lemma {:induction false} RunKeeps<K(!new), V>(c: int, ops: seq<Op<K, V>>, zero: V)
    requires c >= 1
    ensures Run(c, ops, zero).Done?
    ensures var s := Run(c, ops, zero).value;
            s.c == c && Inv(s) && Agrees(s.entries, LastSets(ops))
  {
    if ops != [] {
      RunKeeps(c, ops[..|ops| - 1], zero);
      var s, ref := Run(c, ops[..|ops| - 1], zero).value, LastSets(ops[..|ops| - 1]);
      match ops[|ops| - 1]
      case SetOp(k, v, x) => SetAgrees(s, ref, k, v, x, zero);
      case GetOp(k) => GetAgrees(s, ref, k, zero);
      case ClearOp =>
    }
  }

  lemma SetAgrees<K(!new), V>(s: Cache<K, V>, ref: map<K, (V, int)>, k: K, v: V, x: int, zero: V)
    requires Inv(s) && Agrees(s.entries, ref)
    ensures Set(s, k, v, x, zero).Done?
    ensures var s' := Set(s, k, v, x, zero).value; s'.c == s.c && Inv(s') && Agrees(s'.entries, ref[k := (v, x)])
  {
    SetKeeps(s, k, v, x, zero);
  }

  lemma GetAgrees<K(!new), V>(s: Cache<K, V>, ref: map<K, (V, int)>, k: K, zero: V)
    requires Inv(s) && Agrees(s.entries, ref)
    ensures Get(s, k, zero).Done?
    ensures var (s', _) := Get(s, k, zero).value; s'.c == s.c && Inv(s') && Agrees(s'.entries, ref)
  {
    GetKeeps(s, k, zero);
  }

  /** Over every run, a hit returns the value and the expiry of the latest Set of the key
      since Clear, and a Get right after a Set of the same key hits. */
  lemma GetReturnsLastSet<K(!new), V>(c: int, ops: seq<Op<K, V>>, k: K, zero: V)
    requires c >= 1
    ensures var s := Run(c, ops, zero);
            && s.Done? && Get(s.value, k, zero).Done?
            && var hit := Get(s.value, k, zero).value.1;
               && (hit.Some? ==> k in LastSets(ops) && hit.value == LastSets(ops)[k])
               && (ops != [] && ops[|ops| - 1].SetOp? && ops[|ops| - 1].k == k
                   ==> hit == Some((ops[|ops| - 1].v, ops[|ops| - 1].expires)))
  {
    RunKeeps(c, ops, zero);
    GetKeeps(Run(c, ops, zero).value, k, zero);
    if ops != [] && ops[|ops| - 1].SetOp? && ops[|ops| - 1].k == k {
      RunKeeps(c, ops[..|ops| - 1], zero);
      SetKeeps(Run(c, ops[..|ops| - 1], zero).value, k, ops[|ops| - 1].v, ops[|ops| - 1].expires, zero);
    }
  }

  // -------------------------------------------------------------- nothing lost early

  /** While no more keys than the capacity were set, nothing is evicted. */
  ghost predicate Lossless<K(!new), V>(s: Cache<K, V>, ref: map<K, (V, int)>) {
    && s.b1 == [] && s.b2 == [] && |s.t1| + |s.t2| == |ref|
    && s.entries.Keys == ref.Keys
    && forall k :: k in s.entries ==> !s.entries[k].dead && (s.entries[k].ll.T1? || s.entries[k].ll.T2?)
  }

  lemma LosslessReq<K(!new), V>(s: Cache<K, V>, ref: map<K, (V, int)>, k: K, e: Entry<V>, x: (V, int), zero: V)
    requires Lossless(s, ref) && Sized(s) && Filed(s) && !e.dead && |ref[k := x]| <= s.c
    requires if k in s.entries then e.ll == s.entries[k].ll else e.ll.Nowhere?
    ensures Req(s, k, e, zero).Done?
    ensures Lossless(Req(s, k, e, zero).value, ref[k := x])
  {
    if k in s.entries {
      assert k in s.t1 || k in s.t2;
      assert ref[k := x].Keys == ref.Keys;
    } else {
      OneMoreKey(ref, k, x);
    }
  }

  lemma OneMoreKey<K, V>(ref: map<K, V>, k: K, x: V)
    requires k !in ref
    ensures |ref[k := x]| == |ref| + 1
  {
    assert ref[k := x].Keys == ref.Keys + {k};
    assert |ref[k := x]| == |ref[k := x].Keys| && |ref| == |ref.Keys|;
  }

  lemma LosslessStep<K(!new), V>(s: Cache<K, V>, ref: map<K, (V, int)>, op: Op<K, V>, zero: V)
    requires Lossless(s, ref) && Inv(s) && Agrees(s.entries, ref) && !op.ClearOp? && |ref| <= s.c
    requires op.SetOp? ==> |ref[op.k := (op.v, op.expires)]| <= s.c
    ensures Do(s, op, zero).Done?
    ensures Lossless(Do(s, op, zero).value, if op.SetOp? then ref[op.k := (op.v, op.expires)] else ref)
  {
    if op.SetOp? {
      var e := SetEntry(s, op.k, op.v, op.expires);
      WrittenFiled(s, op.k, e);
      LosslessReq(Written(s, op.k, e), ref, op.k, e, (op.v, op.expires), zero);
    } else if op.k in s.entries {
      assert ref[op.k := ref[op.k]] == ref;
      LosslessReq(s, ref, op.k, s.entries[op.k], ref[op.k], zero);
    }
  }

  lemma {:induction false} RunLossless<K(!new), V>(c: int, ops: seq<Op<K, V>>, zero: V)
    requires c >= 1 && |LastSets(ops)| <= c
    ensures Run(c, ops, zero).Done? && Lossless(Run(c, ops, zero).value, LastSets(ops))
  {
    if ops != [] && !ops[|ops| - 1].ClearOp? {
      var before := ops[..|ops| - 1];
      RunKeeps(c, before, zero);
      MapSizeMonotone(LastSets(before), LastSets(ops));
      RunLossless(c, before, zero);
      LosslessStep(Run(c, before, zero).value, LastSets(before), ops[|ops| - 1], zero);
    } else if ops != [] {
      RunKeeps(c, ops[..|ops| - 1], zero);
    }
  }

  /** As long as the keys set since Clear fit the capacity, every one of them hits. */
  lemma FewKeysAllHit<K(!new), V>(c: int, ops: seq<Op<K, V>>, k: K, zero: V)
    requires c >= 1 && |LastSets(ops)| <= c && k in LastSets(ops)
    ensures Run(c, ops, zero).Done? && Get(Run(c, ops, zero).value, k, zero).Done?
    ensures Get(Run(c, ops, zero).value, k, zero).value.1 == Some(LastSets(ops)[k])
  {
    RunLossless(c, ops, zero);
    GetReturnsLastSet(c, ops, k, zero);
  }

  lemma MapSizeMonotone<K, X>(a: map<K, X>, b: map<K, X>)
    requires a.Keys <= b.Keys
    ensures |a| <= |b|
  {
    assert b.Keys == a.Keys + (b.Keys - a.Keys);
    assert |b.Keys| == |a.Keys| + |b.Keys - a.Keys|;
  }

  // -------------------------------------------------------------- which capacities are safe

  /** With a negative capacity no list but t1 and t2 ever fills, so nothing is popped: the cache
      holds every key set since Clear, live and with its last value. */
  lemma {:induction false} NegativeCapacity<K(!new), V>(c: int, ops: seq<Op<K, V>>, zero: V)
    requires c < 0
    ensures Run(c, ops, zero).Done?
    ensures var s := Run(c, ops, zero).value;
            && s.c == c && s.entries.Keys == LastSets(ops).Keys && Agrees(s.entries, LastSets(ops))
            && forall k :: k in s.entries ==> !s.entries[k].dead && (s.entries[k].ll.T1? || s.entries[k].ll.T2?)
  {
    if ops != [] { NegativeCapacity(c, ops[..|ops| - 1], zero); }
  }

  /** Capacity 0, which is what `New` gives without `WithSize`, is the one that panics:
      on the very first Set. */
  lemma PanicFreeIff<K(!new), V(!new)>(c: int, k: K, v: V, zero: V)
    ensures (forall ops: seq<Op<K, V>> :: Run(c, ops, zero).Done?) <==> c != 0
  {
    if c == 0 {
      var ops := [SetOp(k, v, 0)];
      assert ops[..0] == [];
      assert Run(c, ops[..0], zero) == Done(Init(c));
      assert Set(Init(0), k, v, 0, zero) == Panic;
      assert Run(c, ops, zero) == Panic;
    } else {
      forall ops: seq<Op<K, V>> ensures Run(c, ops, zero).Done? {
        if c < 0 { NegativeCapacity(c, ops, zero); } else { RunKeeps(c, ops, zero); }
      }
    }
  }
}
