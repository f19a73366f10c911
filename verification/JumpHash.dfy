/** Jump consistent hashing and the pick built on it, from
    adapter/outboundgroup/loadbalance.go. Float arithmetic is a parameter: any rounding
    that is monotone and exact on the integers a float64 holds exactly. */
module JumpHash {

  const TWO31: int := 0x8000_0000
  const TWO33: int := 0x2_0000_0000
  const TWO53: int := 0x20_0000_0000_0000
  const TWO62: int := 0x4000_0000_0000_0000
  const TWO64: int := 0x1_0000_0000_0000_0000

  type Word = k: int | 0 <= k < TWO64

  ghost predicate Rounding(rnd: real -> real) {
    && (forall x: real, y: real :: x <= y ==> rnd(x) <= rnd(y))
    && (forall i: int :: 0 <= i <= TWO53 ==> Exact(rnd, i))
    && Exact(rnd, TWO62)
  }

  predicate Exact(rnd: real -> real, i: int) { rnd(i as real) == i as real }

  function NextKey(key: Word): Word { (key * 2862933555777941757 + 1) % TWO64 }

  /** The divisor `(key>>33)+1`, between 1 and 2^31. */
  function Divisor(key: Word): (d: int)
    ensures 1 <= d <= TWO31
  {
    key / TWO33 + 1
  }

  function Scale(key: Word, rnd: real -> real): real {
    rnd(TWO31 as real / Divisor(key) as real)
  }

  /** The next candidate: two float operations, each rounded, then truncated. */
  function Jump(b: int, key: Word, rnd: real -> real): int {
    rnd((b + 1) as real * Scale(key, rnd)).Floor
  }

  lemma ScaleAtLeastOne(d: int)
    requires 1 <= d <= TWO31
    ensures 1.0 <= TWO31 as real / d as real <= TWO31 as real
  {
    Quotient(TWO31 as real, d as real);
  }

  lemma Quotient(x: real, d: real)
    requires 1.0 <= d <= x
    ensures 1.0 <= x / d <= x
  {
    assert (x / d) * d == x;
  }

  lemma ProductBounds(b: real, q: real, y: real)
    requires 1.0 <= b <= 2147483648.0 && 1.0 <= q <= 2147483648.0 && y == b * q
    ensures b <= y <= TWO62 as real
  {
    NonNegative(b, q - 1.0);
    NonNegative(b, 2147483648.0 - q);
  }

  lemma NonNegative(x: real, y: real)
    requires x >= 0.0 && y >= 0.0
    ensures x * y >= 0.0
  {
  }

  /** Every jump moves forward, and stays within an int64. */
  lemma JumpAdvances(b: int, key: Word, rnd: real -> real)
    requires Rounding(rnd) && 0 <= b < TWO31
    ensures b < Jump(b, key, rnd) <= TWO62
  {
    ScaleRounded(key, rnd);
    LandsAbove(b, Scale(key, rnd), rnd);
  }

  lemma LandsAbove(b: int, q: real, rnd: real -> real)
    requires Rounding(rnd) && 0 <= b < TWO31 && 1.0 <= q <= TWO31 as real
    ensures b < rnd((b + 1) as real * q).Floor <= TWO62
  {
    var lo := (b + 1) as real;
    ExactAt(rnd, b + 1);
    RoundedProduct(rnd, lo, q);
    FloorWithin(b, rnd(lo * q));
  }

  lemma FloorWithin(b: int, y: real)
    requires (b + 1) as real <= y <= TWO62 as real
    ensures b < y.Floor <= TWO62
  {
  }

  lemma RoundedProduct(rnd: real -> real, lo: real, q: real)
    requires Rounding(rnd) && 1.0 <= lo <= TWO31 as real && 1.0 <= q <= TWO31 as real && rnd(lo) == lo
    ensures lo <= rnd(lo * q) <= TWO62 as real
  {
    ProductBounds(lo, q, lo * q);
    ExactAt(rnd, 0);
    Rounded(rnd, lo, lo * q, TWO62 as real);
  }

  lemma ScaleRounded(key: Word, rnd: real -> real)
    requires Rounding(rnd)
    ensures 1.0 <= Scale(key, rnd) <= TWO31 as real
  {
    ScaleAtLeastOne(Divisor(key));
    ExactAt(rnd, 1);
    ExactAt(rnd, TWO31);
    Rounded(rnd, 1.0, TWO31 as real / Divisor(key) as real, TWO31 as real);
  }

  lemma ExactAt(rnd: real -> real, i: int)
    requires Rounding(rnd) && 0 <= i <= TWO53
    ensures rnd(i as real) == i as real && rnd(TWO62 as real) == TWO62 as real
  {
    assert Exact(rnd, i);
  }

  lemma Rounded(rnd: real -> real, lo: real, x: real, hi: real)
    requires Rounding(rnd)
    requires lo <= x <= hi && rnd(lo) == lo && rnd(hi) == hi
    ensures lo <= rnd(x) <= hi
  {
  }

  /** The last candidate below n on the walk that stands at b with candidate j. */
  ghost function Walk(key: Word, b: int, j: int, n: int, rnd: real -> real): int
    requires Rounding(rnd) && 0 <= j && n <= TWO31
    decreases n - j
  {
    if j < n then
      JumpAdvances(j, NextKey(key), rnd);
      Walk(NextKey(key), j, Jump(j, NextKey(key), rnd), n, rnd)
    else b
  }

  ghost function Bucket(key: Word, n: int, rnd: real -> real): int
    requires Rounding(rnd) && n <= TWO31
  {
    Walk(key, 0, 0, n, rnd)
  }

  method JumpHash(key: Word, buckets: int, rnd: real -> real) returns (r: int)
    requires Rounding(rnd) && -TWO31 <= buckets < TWO31
    ensures r == Bucket(key, buckets, rnd)
    ensures if buckets >= 1 then 0 <= r < buckets else r == 0
  {
    var b, j, k := 0, 0, key;
    while j < buckets
      invariant 0 <= b <= j && (j == 0 || b < buckets)
      invariant buckets < 1 ==> b == 0
      invariant Walk(k, b, j, buckets, rnd) == Bucket(key, buckets, rnd)
      decreases buckets - j
    {
      b := j;
      k := NextKey(k);
      JumpAdvances(b, k, rnd);
      j := Jump(b, k, rnd);
    }
    r := b;
  }

  lemma {:induction false} WalkGrows(key: Word, b: int, j: int, n: int, m: int, rnd: real -> real)
    requires Rounding(rnd) && 0 <= b <= j && n <= m <= TWO31 && (b < n || n <= 0)
    ensures var r := Walk(key, b, j, m, rnd);
            r == Walk(key, b, j, n, rnd) || n <= r < m
    decreases m - j
  {
    if j < m {
      JumpAdvances(j, NextKey(key), rnd);
      var j' := Jump(j, NextKey(key), rnd);
      if j < n {
        WalkGrows(NextKey(key), j, j', n, m, rnd);
      } else {
        WalkInside(NextKey(key), j, j', m, rnd);
      }
    }
  }

  lemma {:induction false} WalkInside(key: Word, b: int, j: int, m: int, rnd: real -> real)
    requires Rounding(rnd) && 0 <= b < j && b < m <= TWO31
    ensures b <= Walk(key, b, j, m, rnd) < m
    decreases m - j
  {
    if j < m {
      JumpAdvances(j, NextKey(key), rnd);
      WalkInside(NextKey(key), j, Jump(j, NextKey(key), rnd), m, rnd);
    }
  }

  lemma BucketInRange(key: Word, n: int, rnd: real -> real)
    requires Rounding(rnd) && 1 <= n <= TWO31
    ensures 0 <= Bucket(key, n, rnd) < n
  {
    JumpAdvances(0, NextKey(key), rnd);
    WalkInside(NextKey(key), 0, Jump(0, NextKey(key), rnd), n, rnd);
  }

  /** Minimal disruption: growing from n buckets to m moves a key only into one of the
      new buckets; one new bucket at a time, only into that bucket. */
  lemma GrowingMovesOnlyToNewBuckets(key: Word, n: int, m: int, rnd: real -> real)
    requires Rounding(rnd) && 1 <= n <= m <= TWO31
    ensures Bucket(key, m, rnd) == Bucket(key, n, rnd) || n <= Bucket(key, m, rnd) < m
    ensures m == n + 1 ==> Bucket(key, m, rnd) == Bucket(key, n, rnd) || Bucket(key, m, rnd) == n
  {
    WalkGrows(key, 0, 0, n, m, rnd);
  }

  ghost predicate SomeAlive(alive: seq<bool>) { exists i :: 0 <= i < |alive| && alive[i] }

  const TRIES: nat := 5

  function Bump(key: Word): Word { if key + 1 < TWO64 then key + 1 else 0 }

  function KeyOfTry(key: Word, i: nat): Word { if i == 0 then key else Bump(KeyOfTry(key, i - 1)) }

  /** The proxy hashed to on the i-th try. */
  ghost function Try(key: Word, i: nat, n: int, rnd: real -> real): (r: int)
    requires Rounding(rnd) && 1 <= n < TWO31
    ensures 0 <= r < n
  {
    BucketInRange(KeyOfTry(key, i), n, rnd);
    Bucket(KeyOfTry(key, i), n, rnd)
  }

  /** The first i tries all meet dead proxies. */
  ghost predicate Missed(key: Word, i: nat, alive: seq<bool>, rnd: real -> real)
    requires Rounding(rnd) && 1 <= |alive| < TWO31
  {
    forall j: nat :: j < i ==> !alive[Try(key, j, |alive|, rnd)]
  }

  ghost predicate Hits(key: Word, i: nat, alive: seq<bool>, rnd: real -> real, r: int)
    requires Rounding(rnd) && 1 <= |alive| < TWO31
  {
    Missed(key, i, alive, rnd) && r == Try(key, i, |alive|, rnd) && alive[r]
  }

  /** `strategyConsistentHashing`: the first live proxy among five hashed tries, else the first
      live one of the list, else the first. */
  method ConsistentPick(key: Word, alive: seq<bool>, rnd: real -> real) returns (r: int)
    requires Rounding(rnd) && 1 <= |alive| < TWO31
    ensures 0 <= r < |alive| && if SomeAlive(alive) then alive[r] else r == 0
    ensures if Missed(key, TRIES, alive, rnd) then SomeAlive(alive) ==> forall j :: 0 <= j < r ==> !alive[j]
            else exists i: nat :: i < TRIES && Hits(key, i, alive, rnd, r)
  {
    var k: Word := key;
    var i := 0;
    while i < TRIES
      invariant 0 <= i <= TRIES && k == KeyOfTry(key, i)
      invariant Missed(key, i, alive, rnd)
    {
      r := JumpHash(k, |alive|, rnd);
      assert r == Try(key, i, |alive|, rnd);
      if alive[r] {
        assert Hits(key, i, alive, rnd, r);
        return;
      }
      i, k := i + 1, Bump(k);
    }
    r := FirstAlive(alive);
  }

  method FirstAlive(alive: seq<bool>) returns (r: int)
    requires alive != []
    ensures 0 <= r < |alive| && if SomeAlive(alive) then alive[r] else r == 0
    ensures SomeAlive(alive) ==> forall j :: 0 <= j < r ==> !alive[j]
  {
    for i := 0 to |alive|
      invariant forall j :: 0 <= j < i ==> !alive[j]
    {
      if alive[i] { return i; }
    }
    r := 0;
  }

  // ---------------------------------------------------------------------- what is computed

  /** The key moves by the linear congruence 2862933555777941757 k + 1 modulo 2^64; a jump from b
      goes to b + 1 times 2^31 over one more than the upper 31 bits of the key. */
  lemma StepIs(b: int, key: Word, rnd: real -> real) returns (q: int)
    ensures key * 2862933555777941757 + 1 == q * 0x1_0000_0000_0000_0000 + NextKey(key)
    ensures Scale(key, rnd) == rnd(0x8000_0000 as real / (key / 0x2_0000_0000 + 1) as real)
    ensures Jump(b, key, rnd) == rnd((b + 1) as real * Scale(key, rnd)).Floor
  {
    var n := key * 2862933555777941757 + 1;
    q := n / TWO64;
    assert n == TWO64 * (n / TWO64) + n % TWO64;
    assert 0x8000_0000 as real / (key / 0x2_0000_0000 + 1) as real == TWO31 as real / Divisor(key) as real;
  }

  /** The i-th try hashes the key plus i, modulo 2^64. */
  lemma {:induction false} TryKeyIs(key: Word, i: nat)
    ensures KeyOfTry(key, i) == (key + i) % TWO64
  {
    if i > 0 {
      TryKeyIs(key, i - 1);
      BumpIs(key + i - 1);
    }
  }

  lemma BumpIs(n: nat)
    ensures Bump(n % TWO64) == (n + 1) % TWO64
  {
    var q, r := n / TWO64, n % TWO64;
    assert n + 1 == if r + 1 < TWO64 then q * TWO64 + (r + 1) else (q + 1) * TWO64;
  }

  /** Of two buckets, in exact arithmetic, a key goes to the second if and only if the top bit of
      its successor is set: half of the keys. */
  lemma TwoBuckets(key: Word, rnd: real -> real)
    requires Rounding(rnd) && forall x: real :: rnd(x) == x
    ensures Bucket(key, 2, rnd) == if NextKey(key) >= 0x8000_0000_0000_0000 then 1 else 0
  {
    var k := NextKey(key);
    var d := Divisor(k);
    JumpAdvances(0, k, rnd);
    JumpAdvances(1, NextKey(k), rnd);
    Halves(d);
    assert d > 0x4000_0000 <==> k >= 0x8000_0000_0000_0000;
  }

  lemma Halves(d: int)
    requires 1 <= d <= TWO31
    ensures TWO31 as real / d as real < 2.0 <==> d > 0x4000_0000
  {
    var q := TWO31 as real / d as real;
    assert q * d as real == TWO31 as real;
    if q < 2.0 { assert q * d as real < 2.0 * d as real; } else { assert q * d as real >= 2.0 * d as real; }
  }
}
