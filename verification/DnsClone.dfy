/** Who owns a cached DNS message (dns/util.go, dns/msg_cache.go): what `getForCaller` hands
    out shares no mutable memory with the cache. */
module DnsClone {
  import opened NetAddr
  import opened DnsTtl
  import opened DnsCache

  /** A record in memory: `data` is what it holds by reference, null where it holds none. */
  class Cell {
    var name: string
    var kind: nat
    var cls: nat
    var ttl: U32
    var data: array?<Byte>

    constructor (name: string, kind: nat, cls: nat, ttl: U32, data: array?<Byte>)
      ensures this.name == name && this.kind == kind && this.cls == cls && this.ttl == ttl && this.data == data
    {
      this.name, this.kind, this.cls, this.ttl, this.data := name, kind, cls, ttl, data;
    }
  }

  datatype View = Null | View(name: string, kind: nat, cls: nat, ttl: U32, data: Option<seq<Byte>>)

  // ------------------------------------------------------------------------- ownership

  /** The memory a record lives in. */
  ghost function Memory(r: Cell?): set<object>
    reads r
  {
    if r == null then {} else if r.data == null then {r} else {r, r.data}
  }

  ghost function ViewOf(r: Cell?): View
    reads r, Memory(r)
  {
    if r == null then Null
    else View(r.name, r.kind, r.cls, r.ttl, if r.data == null then None else Some(r.data[..]))
  }

  ghost predicate Owned(rs: seq<Cell?>, own: set<object>)
    reads own
  {
    forall i :: 0 <= i < |rs| && rs[i] != null ==> rs[i] in own && (rs[i].data != null ==> rs[i].data in own)
  }

  ghost predicate Shows(rs: seq<Cell?>, own: set<object>, vs: seq<View>)
    reads own
  {
    Owned(rs, own) && |rs| == |vs| && forall i :: 0 <= i < |rs| ==> ViewOf(rs[i]) == vs[i]
  }

  // --------------------------------------------------------------------------- cloning

  /** `cloneIP`. */
  method CloneData(data: array?<Byte>) returns (c: array?<Byte>)
    ensures c == null <==> data == null
    ensures c != null ==> fresh(c) && c[..] == data[..]
  {
    if data == null { return null; }
    c := new Byte[data.Length](i requires 0 <= i < data.Length reads data => data[i]);
    assert c[..] == data[..];
  }

  /** `cloneShareRdata`, and the deep copy of the kinds it does not know. */
  method CloneCell(r: Cell?) returns (c: Cell?)
    ensures fresh(Memory(c))
    ensures ViewOf(c) == ViewOf(r)
  {
    if r == null { return null; }
    var data := CloneData(r.data);
    c := new Cell(r.name, r.kind, r.cls, r.ttl, data);
  }

  /** `cloneRRs`. */
  method CloneCells(rs: seq<Cell?>, ghost own: set<object>, ghost vs: seq<View>)
    returns (out: seq<Cell?>, ghost got: set<object>)
    requires Shows(rs, own, vs)
    ensures fresh(got) && Shows(out, got, vs)
  {
    out := [];
    got := {};
    for i := 0 to |rs|
      invariant fresh(got) && Shows(out, got, vs[..i])
    {
      var c := CloneCell(rs[i]);
      out := out + [c];
      got := got + Memory(c);
    }
  }

  class Message {
    var hdr: Header
    var compress: bool
    var questions: seq<CacheKey>
    var answer: seq<Cell?>
    var ns: seq<Cell?>
    var extra: seq<Cell?>

    constructor (hdr: Header, compress: bool, questions: seq<CacheKey>,
                 answer: seq<Cell?>, ns: seq<Cell?>, extra: seq<Cell?>)
      ensures this.hdr == hdr && this.compress == compress && this.questions == questions
      ensures this.answer == answer && this.ns == ns && this.extra == extra
    {
      this.hdr, this.compress, this.questions := hdr, compress, questions;
      this.answer, this.ns, this.extra := answer, ns, extra;
    }
  }

  datatype MsgView = MsgView(hdr: Header, compress: bool, questions: seq<CacheKey>,
                             answer: seq<View>, ns: seq<View>, extra: seq<View>)

  /** The message reads as v, and lives in `own` alone. */
  ghost predicate Reads(m: Message, own: set<object>, v: MsgView)
    reads own
  {
    && m in own
    && m.hdr == v.hdr && m.compress == v.compress && m.questions == v.questions
    && Shows(m.answer, own, v.answer)
    && Shows(m.ns, own, v.ns)
    && Shows(m.extra, own, v.extra)
  }

  lemma ShowsMore(rs: seq<Cell?>, own: set<object>, more: set<object>, vs: seq<View>)
    requires Shows(rs, own, vs) && own <= more
    ensures Shows(rs, more, vs)
  {
  }

  /** `cloneMsg`: the copy reads the same and lives in memory of its own. */
  method CloneMsg(m: Message, ghost own: set<object>, ghost v: MsgView)
    returns (out: Message, ghost got: set<object>)
    requires Reads(m, own, v)
    ensures fresh(got) && Reads(out, got, v)
  {
    var answer, a := CloneCells(m.answer, own, v.answer);
    assert Shows(m.ns, own, v.ns) && Shows(m.extra, own, v.extra);
    var ns, b := CloneCells(m.ns, own, v.ns);
    assert Shows(m.extra, own, v.extra) && Shows(answer, a, v.answer);
    var extra, c := CloneCells(m.extra, own, v.extra);
    assert Shows(answer, a, v.answer) && Shows(ns, b, v.ns);
    out := new Message(m.hdr, m.compress, m.questions, answer, ns, extra);
    got := {out} + a + b + c;
    ShowsMore(answer, a, got, v.answer);
    ShowsMore(ns, b, got, v.ns);
    ShowsMore(extra, c, got, v.extra);
  }

  // --------------------------------------------------------------------------- the cache

  const TYPE_A: nat := 1
  const TYPE_AAAA: nat := 28

  ghost function RecordView(r: RR): View {
    if r.A? || r.AAAA? then View(r.name, if r.A? then TYPE_A else TYPE_AAAA, r.cls, r.ttl, Some(r.bytes)) else Null
  }

  ghost function ExpandedView(key: CacheKey, ips: seq<Addr>): (vs: seq<View>)
    ensures |vs| == |ips|
  {
    seq(|ips|, i requires 0 <= i < |ips| => RecordView(Record(key, ips[i])))
  }

  method ExpandCell(key: CacheKey, ip: Addr) returns (c: Cell?)
    ensures fresh(Memory(c))
    ensures ViewOf(c) == RecordView(Record(key, ip))
  {
    var r := Record(key, ip);
    var data := new Byte[|r.bytes|](i requires 0 <= i < |r.bytes| => r.bytes[i]);
    assert data[..] == r.bytes;
    c := new Cell(r.name, if r.A? then TYPE_A else TYPE_AAAA, r.cls, r.ttl, data);
  }

  /** `expand`, in memory. */
  method ExpandMsg(key: CacheKey, ips: seq<Addr>, hdr: Header, compress: bool)
    returns (out: Message, ghost got: set<object>)
    ensures fresh(got)
    ensures Reads(out, got, MsgView(hdr, compress, [key], ExpandedView(key, ips), [], []))
  {
    var answer: seq<Cell?> := [];
    got := {};
    ghost var vs := ExpandedView(key, ips);
    for i := 0 to |ips|
      invariant fresh(got) && Shows(answer, got, vs[..i])
    {
      var c := ExpandCell(key, ips[i]);
      answer := answer + [c];
      got := got + Memory(c);
    }
    assert vs[..|ips|] == vs;
    out := new Message(hdr, compress, [key], answer, [], []);
    ghost var mem := got;
    got := got + {out};
    ShowsMore(answer, mem, got, vs);
  }

  datatype Slot = Whole(msg: Message) | Addrs(ips: seq<Addr>, hdr: Header, compress: bool)

  class MsgCache {
    var entries: map<CacheKey, Slot>
    /** The memory of the messages kept. */
    ghost var own: set<object>

    /** A hit on the key reads as v. */
    ghost predicate Holds(key: CacheKey, v: MsgView)
      reads this, own
    {
      key in entries &&
      match entries[key]
      case Whole(m) => Reads(m, own, v)
      case Addrs(ips, hdr, compress) => v == MsgView(hdr, compress, [key], ExpandedView(key, ips), [], [])
    }

    /** `getForCaller`: nothing on a miss. */
    method GetForCaller(key: CacheKey, ghost v: MsgView) returns (msg: Message?, ghost got: set<object>)
      requires key in entries ==> Holds(key, v)
      ensures msg == null <==> key !in entries
      ensures fresh(got)
      ensures msg != null ==> Reads(msg, got, v)
    {
      if key !in entries { return null, {}; }
      match entries[key]
      case Whole(m) => msg, got := CloneMsg(m, own, v);
      case Addrs(ips, hdr, compress) => msg, got := ExpandMsg(key, ips, hdr, compress);
    }

    /** Whatever the caller does to the message of one hit, to its records and to their bytes, a
        later hit, on the same key or any other, reads as before, and in memory of its own. */
    method HitAgain(key: CacheKey, other: CacheKey, ghost v: MsgView, ghost u: MsgView)
      returns (first: Message?, next: Message?, ghost lent: set<object>, ghost got: set<object>)
      requires (key in entries ==> Holds(key, v)) && (other in entries ==> Holds(other, u))
      ensures (first == null <==> key !in entries) && (next == null <==> other !in entries)
      ensures first != null ==> first in lent
      ensures next != null ==> Holds(other, u) && Reads(next, got, u) && lent !! got
    {
      first, lent := GetForCaller(key, v);
      modify lent;
      next, got := GetForCaller(other, u);
    }
  }
}
