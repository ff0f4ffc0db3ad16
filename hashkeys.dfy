/** Folding an integer k-vector g into the two hash keys (t1, t2) of an LSH
    table (H::computeProductModDefaultPrime and H::generate_hash_keys). */
module HashKeys {
  import opened Common

  /** Largest coefficient randr produces: r1 and r2 lie in 1..2^29. */
  const MAX_R: int := 0x2000_0000

  const TWO64: int := 0x1_0000_0000_0000_0000

  /** The exact dot product of the first n entries. */
  function Dot(a: seq<Uns32>, b: seq<Uns32>, n: nat): int
    requires n <= |a| && n <= |b|
  {
    if n == 0 then 0 else Dot(a, b, n - 1) + (a[n - 1] as int) * (b[n - 1] as int)
  }

  /** One turn of the reduction loop: accumulate a*b in 64 bits, fold the
      high word down with 2^32 = 5 (mod P), subtract P at most once. */
  function FoldStep(h: int, x: Uns32, y: Uns32): int {
    Reduce(h + (x as int) * (y as int))
  }

  function Reduce(s: int): int {
    var f := s % TWO32 + 5 * (s / TWO32);
    if f >= PRIME then f - PRIME else f
  }

  /** The accumulator after n turns; None once CR_ASSERT(h < P) fails. */
  function Fold(a: seq<Uns32>, b: seq<Uns32>, n: nat): Option<Uns32>
    requires n <= |a| && n <= |b|
  {
    if n == 0 then Some(0)
    else match Fold(a, b, n - 1)
      case None => None
      case Some(h) =>
        var f := FoldStep(h, a[n - 1], b[n - 1]);
        if 0 <= f < PRIME then Some(f) else None
  }

  predicate CoefficientsInRange(b: seq<Uns32>, n: nat)
    requires n <= |b|
  {
    forall i :: 0 <= i < n ==> 1 <= b[i] <= MAX_R
  }

  lemma {:induction false} ModAddMultiple(f: int, q: nat)
    ensures (f + PRIME * q) % PRIME == f % PRIME
  {
    if q > 0 {
      ModAddMultiple(f, q - 1);
      assert f + PRIME * q == (f + PRIME * (q - 1)) + PRIME;
    }
  }

  /** The folded high word keeps the value modulo P, because 2^32 = P + 5. */
  lemma FoldWordCongruent(s: nat)
    ensures (s % TWO32 + 5 * (s / TWO32)) % PRIME == s % PRIME
  {
    var lo, hi := s % TWO32, s / TWO32;
    assert s == lo + TWO32 * hi;
    assert s == (lo + 5 * hi) + PRIME * hi;
    ModAddMultiple(lo + 5 * hi, hi);
  }

  lemma MulBound(x: nat, y: nat, X: nat, Y: nat)
    requires x <= X && y <= Y
    ensures x * y <= X * Y
  {
    assert x * y <= X * y;
    assert X * y <= X * Y;
  }

  /** The reduction of one accumulated word s below 2^64. */
  lemma ReduceFacts(s: nat)
    requires s < TWO64
    ensures Reduce(s) >= 0 && Reduce(s) % PRIME == s % PRIME
    ensures s < TWO32 * (MAX_R + 1) ==> Reduce(s) < PRIME
  {
    var u := s % TWO32 + 5 * (s / TWO32);
    FoldWordCongruent(s);
    if u >= PRIME {
      ModAddMultiple(u - PRIME, 1);
    }
  }

  /** Accumulating a product e of two 32-bit words into h < P. */
  lemma AccumulateFacts(h: int, e: int)
    requires 0 <= h < PRIME && 0 <= e <= (TWO32 - 1) * (TWO32 - 1)
    ensures h + e < TWO64
    ensures Reduce(h + e) >= 0 && Reduce(h + e) % PRIME == (h + e) % PRIME
    ensures e <= (TWO32 - 1) * MAX_R ==> Reduce(h + e) < PRIME
  {
    ReduceFacts(h + e);
  }

  /** A turn never overflows the 64-bit accumulator, keeps the value modulo P,
      and with a coefficient of at most 2^29 lands below P. */
  lemma FoldStepFacts(h: int, x: Uns32, y: Uns32)
    requires 0 <= h < PRIME
    ensures h + (x as int) * (y as int) < TWO64
    ensures FoldStep(h, x, y) >= 0
    ensures FoldStep(h, x, y) % PRIME == (h + (x as int) * (y as int)) % PRIME
    ensures y <= MAX_R ==> FoldStep(h, x, y) < PRIME
  {
    var e := (x as int) * (y as int);
    MulBound(x, y, TWO32 - 1, TWO32 - 1);
    assert y <= MAX_R ==> e <= (TWO32 - 1) * MAX_R by {
      if y <= MAX_R {
        MulBound(x, y, TWO32 - 1, MAX_R);
      }
    }
    AccumulateFacts(h, e);
    assert FoldStep(h, x, y) == Reduce(h + e);
  }

  /** Fold stays below P, agrees with the dot product modulo P, and cannot
      abort when every coefficient lies in the randr range. */
  lemma {:induction false} FoldCorrect(a: seq<Uns32>, b: seq<Uns32>, n: nat)
    requires n <= |a| && n <= |b|
    ensures Fold(a, b, n).Some? ==>
              Fold(a, b, n).value < PRIME && Fold(a, b, n).value % PRIME == Dot(a, b, n) % PRIME
    ensures CoefficientsInRange(b, n) ==> Fold(a, b, n).Some?
  {
    if n > 0 {
      FoldCorrect(a, b, n - 1);
      match Fold(a, b, n - 1)
      case None =>
      case Some(h) =>
        FoldStepFacts(h, a[n - 1], b[n - 1]);
        var d := Dot(a, b, n - 1);
        var e := (a[n - 1] as int) * (b[n - 1] as int);
        ModSumCongruent(h, d, e);
    }
  }

  lemma ModSumCongruent(h: int, d: int, e: int)
    requires h % PRIME == d % PRIME
    ensures (h + e) % PRIME == (d + e) % PRIME
  {
    var q1, q2 := h / PRIME, d / PRIME;
    assert h == d + PRIME * (q1 - q2);
    var t := q1 - q2;
    if t >= 0 {
      ModAddMultiple(d + e, t);
    } else {
      ModAddMultiple(h + e, -t);
    }
  }

  /** One more turn of the fold from accumulator h. */
  lemma FoldNext(a: seq<Uns32>, b: seq<Uns32>, i: nat, h: Uns32)
    requires i < |a| && i < |b| && Fold(a, b, i) == Some(h)
    ensures var f := FoldStep(h, a[i], b[i]);
      Fold(a, b, i + 1) == if 0 <= f < PRIME then Some(f) else None
  {
  }

  /** Once the fold has aborted, no later prefix recovers. */
  lemma {:induction false} FoldAbortPersists(a: seq<Uns32>, b: seq<Uns32>, i: nat, n: nat)
    requires i <= n <= |a| && n <= |b|
    requires Fold(a, b, i).None?
    ensures Fold(a, b, n).None?
    decreases n - i
  {
    if i < n {
      FoldAbortPersists(a, b, i + 1, n);
    }
  }

  /** H::computeProductModDefaultPrime: (a.b) mod P over the first size entries. */
  method ComputeProductModDefaultPrime(a: seq<Uns32>, b: seq<Uns32>, size: nat) returns (r: Option<Uns32>)
    requires size <= |a| && size <= |b|
    ensures r == Fold(a, b, size)
    ensures r.Some? ==> r.value < PRIME && r.value % PRIME == Dot(a, b, size) % PRIME
    ensures CoefficientsInRange(b, size) ==> r.Some?
  {
    FoldCorrect(a, b, size);
    var h: int := 0;
    var i := 0;
    while i < size
      invariant 0 <= i <= size
      invariant 0 <= h < PRIME
      invariant Fold(a, b, i) == Some(h)
    {
      var e := (a[i] as int) * (b[i] as int);
      FoldStepFacts(h, a[i], b[i]);
      FoldNext(a, b, i, h);
      assert FoldStep(h, a[i], b[i]) == Reduce(h + e);
      var s := h + e;  // the LongUns64T accumulator does not wrap
      h := s % TWO32 + 5 * (s / TWO32);
      if h >= PRIME {
        h := h - PRIME;
      }
      assert h == Reduce(s);
      if h >= PRIME {
        // CR_ASSERT fails: the source prints a message and exits
        FoldAbortPersists(a, b, i + 1, size);
        return None;
      }
      i := i + 1;
    }
    return Some(h);
  }

  /** The reference definition of the two keys. */
  function Keys(g: seq<Uns32>, r1: seq<Uns32>, r2: seq<Uns32>, k: nat, N: Uns32): Option<(Uns32, Uns32)>
    requires k <= |g| && k <= |r1| && k <= |r2| && N > 0
  {
    match (Fold(g, r1, k), Fold(g, r2, k))
    case (Some(h1), Some(h2)) => Some((h1 % N, h2))
    case _ => None
  }

  /** t1 selects a row (it is below N and is the dot product with r1 reduced
      mod P, then mod N); t2 is the dot product with r2 mod P, so it is never
      IFLAG nor a FORMAT2 token; with randr coefficients the keys exist. */
  lemma KeysCorrect(g: seq<Uns32>, r1: seq<Uns32>, r2: seq<Uns32>, k: nat, N: Uns32)
    requires k <= |g| && k <= |r1| && k <= |r2| && N > 0
    ensures var keys := Keys(g, r1, r2, k, N);
      && (keys.Some? ==> keys.value.0 < N && keys.value.1 < PRIME)
      && (keys.Some? ==> keys.value.1 != IFLAG && !IsToken(keys.value.1))
      && (keys.Some? ==> keys.value.0 == (Dot(g, r1, k) % PRIME) % N)
      && (keys.Some? ==> keys.value.1 == Dot(g, r2, k) % PRIME)
      && (CoefficientsInRange(r1, k) && CoefficientsInRange(r2, k) ==> keys.Some?)
  {
    FoldCorrect(g, r1, k);
    FoldCorrect(g, r2, k);
    var f1, f2 := Fold(g, r1, k), Fold(g, r2, k);
    if f1.Some? && f2.Some? {
      var h1, h2 := f1.value, f2.value;
      assert h1 == Dot(g, r1, k) % PRIME by {
        SmallMod(h1);
      }
      assert h2 == Dot(g, r2, k) % PRIME by {
        SmallMod(h2);
      }
      var t1: Uns32 := h1 % N;
      assert Keys(g, r1, r2, k, N) == Some((t1, h2));
    }
  }

  lemma SmallMod(h: int)
    requires 0 <= h < PRIME
    ensures h % PRIME == h
  {
  }

  /** H::generate_hash_keys. */
  method GenerateHashKeys(g: seq<Uns32>, r1: seq<Uns32>, r2: seq<Uns32>, k: nat, N: Uns32)
    returns (keys: Option<(Uns32, Uns32)>)
    requires k <= |g| && k <= |r1| && k <= |r2| && N > 0
    ensures keys == Keys(g, r1, r2, k, N)
    ensures CoefficientsInRange(r1, k) && CoefficientsInRange(r2, k) ==> keys.Some?
  {
    var h1 := ComputeProductModDefaultPrime(g, r1, k);
    var h2 := ComputeProductModDefaultPrime(g, r2, k);
    if h1.None? || h2.None? {
      return None;
    }
    keys := Some((h1.value % N, h2.value));
  }
}
