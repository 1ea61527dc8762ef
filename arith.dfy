/** Integer facts used by the model: Euclidean division by a positive
    divisor, and sums of counts. */
module Arith {

  lemma MulAtLeast(d: int, n: int)
    requires d >= 1 && n > 0
    ensures d * n >= n
  {
  }

  /** Quotient and remainder are unique: x == q * n + r with 0 <= r < n
      fixes both. */
  lemma ModUnique(x: int, n: int, q: int, r: int)
    requires n > 0 && 0 <= r < n && x == q * n + r
    ensures x % n == r && x / n == q
  {
    var q', r' := x / n, x % n;
    assert x == q' * n + r';
    var d := q - q';
    assert d * n == r' - r;
    if d >= 1 {
      MulAtLeast(d, n);
      assert false;
    } else if d <= -1 {
      MulAtLeast(-d, n);
      assert false;
    }
  }

  lemma ModAddN(x: int, n: int)
    requires n > 0
    ensures (x + n) % n == x % n
  {
    ModUnique(x + n, n, x / n + 1, x % n);
  }

  lemma ModSmall(x: int, n: int)
    requires 0 <= x < n
    ensures x % n == x && x / n == 0
  {
    ModUnique(x, n, 0, x);
  }

  /** Multiplying by a positive n preserves the order of the factors. */
  lemma MulMonotone(a: int, b: int, n: int)
    requires n > 0 && a < b
    ensures a * n < b * n
  {
    MulAtLeast(b - a, n);
    assert b * n - a * n == (b - a) * n;
  }

  /** Sum of a sequence of counts, defined on prefixes. */
  function Sum(xs: seq<nat>): nat
  {
    if xs == [] then 0 else Sum(xs[..|xs| - 1]) + xs[|xs| - 1]
  }

  lemma {:induction false} SumSame(a: seq<nat>, b: seq<nat>)
    requires |a| == |b|
    requires forall i :: 0 <= i < |a| ==> b[i] == a[i]
    ensures Sum(b) == Sum(a)
  {
    assert a == b;
  }

  /** Raising one entry by one raises the sum by one. */
  lemma {:induction false} SumBump(a: seq<nat>, b: seq<nat>, j: int)
    requires |a| == |b| && 0 <= j < |a|
    requires b[j] == a[j] + 1
    requires forall i :: 0 <= i < |a| && i != j ==> b[i] == a[i]
    ensures Sum(b) == Sum(a) + 1
    decreases |a|
  {
    var n := |a| - 1;
    if j == n {
      SumSame(a[..n], b[..n]);
    } else {
      SumBump(a[..n], b[..n], j);
    }
  }

  /** A run of zeros sums to zero. */
  lemma {:induction false} ZeroSum(n: nat)
    ensures Sum(seq(n, _ => 0)) == 0
  {
    if n > 0 {
      assert seq(n, _ => 0)[..n - 1] == seq(n - 1, _ => 0);
      ZeroSum(n - 1);
    }
  }

  /** The cross term of a square of a sum of naturals is not negative. */
  lemma SquareOfSum(a: nat, b: nat)
    ensures (a + b) * (a + b) >= a * a + b * b + 2 * a * b
  {
    assert (a + b) * (a + b) == a * a + b * b + 2 * a * b;
  }

  /** t (t - 1) grows with t over the naturals. */
  lemma MulMonotoneLe(t: nat, n: nat)
    requires t <= n
    ensures t * t - t <= n * n - n
  {
    if t < n {
      assert n * n - n - (t * t - t) == (n - t) * (n + t - 1);
      MulAtLeast(n - t, n + t - 1 + 1);
    }
  }

  /** A count c with c + t <= t * t, t at most n, is at most n (n - 1). */
  lemma PairsAtMost(c: nat, t: nat, n: nat)
    requires c + t <= t * t && t <= n
    ensures c <= n * (n - 1)
  {
    MulMonotoneLe(t, n);
    assert n * (n - 1) == n * n - n;
  }

  /** Subtracting a shift from a rank, modulo 26, spelled out. */
  lemma ModSub26(x: int, s: int)
    requires 0 <= x < 26 && 0 <= s <= 25
    ensures (x - s) % 26 == if x >= s then x - s else x - s + 26
  {
    if x >= s {
      ModSmall(x - s, 26);
    } else {
      ModUnique(x - s, 26, -1, x - s + 26);
    }
  }

  /** Adding a shift to a rank, modulo 26, spelled out. */
  lemma ModAdd26(x: int, s: int)
    requires 0 <= x < 26 && 0 <= s <= 25
    ensures (x + s) % 26 == if x + s < 26 then x + s else x + s - 26
  {
    if x + s < 26 {
      ModSmall(x + s, 26);
    } else {
      ModUnique(x + s, 26, 1, x + s - 26);
    }
  }

  lemma MulSucc(m: int, n: int)
    ensures (m + 1) * n == m * n + n
  {
  }

  /** Reducing modulo a multiple of n first does not change the residue modulo n. */
  lemma ModOfMultiple(j: nat, m: nat, n: nat)
    requires n > 0 && m >= 1
    ensures (j % (m * n)) % n == j % n
  {
    var l := m * n;
    MulAtLeast(m, n);
    var jl := j % l;
    var q, q2, r2 := j / l, jl / n, jl % n;
    assert j == q * l + jl;
    assert jl == q2 * n + r2;
    assert q * l == (q * m) * n;
    assert j == (q * m + q2) * n + r2;
    ModUnique(j, n, q * m + q2, r2);
  }
}
