/** Integer, set-size and prefix facts used across the model. */
module Arithmetic {

  /** Two's-complement truncation to a signed 32-bit integer, as Go's `int32(n)`. */
  function ToInt32(n: int): (r: int)
    ensures -0x8000_0000 <= r < 0x8000_0000
    ensures -0x8000_0000 <= n < 0x8000_0000 ==> r == n
  {
    var r := n % 0x1_0000_0000;
    if r >= 0x8000_0000 then r - 0x1_0000_0000 else r
  }

  /** Truncating an addend or the running sum early never changes the truncated total. */
  lemma ToInt32Add(a: int, b: int)
    ensures ToInt32(ToInt32(a) + ToInt32(b)) == ToInt32(a + b)
  {
    var k := (ToInt32(a) - a) / 0x1_0000_0000;
    assert ToInt32(a) == a + k * 0x1_0000_0000;
    var j := (ToInt32(b) - b) / 0x1_0000_0000;
    assert ToInt32(b) == b + j * 0x1_0000_0000;
    assert ToInt32(a) + ToInt32(b) == (a + b) + (k + j) * 0x1_0000_0000;
    assert ((a + b) + (k + j) * 0x1_0000_0000) % 0x1_0000_0000 == (a + b) % 0x1_0000_0000;
  }

  lemma MulNext(a: nat, n: nat)
    ensures (a + 1) * n == a * n + n
  {}

  lemma MulDistributes(a: nat, b: nat, c: nat)
    ensures a * (b + c) == a * b + a * c
  {}

  lemma {:induction false} MulBound(a: nat, b: nat, n: nat)
    requires a < b
    ensures a * n + n <= b * n
  {
    MulNext(b - 1, n);
    if a < b - 1 { MulBound(a, b - 1, n); }
  }

  lemma MulMonotone(a: nat, b: nat, n: nat)
    requires a <= b
    ensures a * n <= b * n
  {
    if a < b { MulBound(a, b, n); }
  }

  /** Quotient and remainder are determined by the number. */
  lemma QuotientUnique(a: nat, r: nat, q: nat, r': nat, n: nat)
    requires r < n && r' < n && a * n + r == q * n + r'
    ensures a == q && r == r'
  {
    if a < q { MulBound(a, q, n); }
    if q < a { MulBound(q, a, n); }
  }

  lemma DivMod(i: nat, n: nat, q: nat)
    requires n > 0 && q * n <= i < q * n + n
    ensures i / n == q && i % n == i - q * n
  {
    assert i == (i / n) * n + i % n;
    QuotientUnique(i / n, i % n, q, i - q * n, n);
  }

  /** Division with remainder of a number below `m * n`. */
  lemma Divide(i: nat, n: nat, m: nat) returns (q: nat, r: nat)
    requires i < m * n
    ensures n > 0 && q == i / n && r == i % n
    ensures q < m && r < n && i == q * n + r
  {
    assert n > 0;
    q, r := i / n, i % n;
    assert i == q * n + r;
    if m <= q { MulMonotone(m, q, n); }
  }

  lemma SubsetSize<T>(a: set<T>, b: set<T>)
    requires a <= b
    ensures |a| <= |b|
  {
    assert b == a + (b - a);
    assert |b| == |a| + |b - a|;
  }

  lemma StrictSubsetSize<T>(a: set<T>, b: set<T>, x: T)
    requires a <= b && x in b && x !in a
    ensures |a| < |b|
  {
    SubsetSize(a + {x}, b);
  }

  /** One more element of a prefix, on its own and behind another sequence. */
  lemma PrefixNext<T>(before: seq<T>, s: seq<T>, k: nat)
    requires k < |s|
    ensures s[..k + 1] == s[..k] + [s[k]]
    ensures before + s[..k + 1] == (before + s[..k]) + [s[k]]
  {}
}
