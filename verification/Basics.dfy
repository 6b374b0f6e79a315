/** Small shared vocabulary: optional values, results, bytes and distinctness. */
module Basics {

  datatype Option<+T> = None | Some(value: T)

  datatype Result<+T, +E> = Ok(value: T) | Err(error: E)

  type byte = b: int | 0 <= b < 0x100

  type bytes = seq<byte>

  ghost predicate NoDuplicates<T(!new)>(s: seq<T>) {
    forall i, j :: 0 <= i < j < |s| ==> s[i] != s[j]
  }

  function Max(a: int, b: int): int {
    if a < b then b else a
  }

  function Min(a: int, b: int): int {
    if a < b then a else b
  }

  // ---------------------------------------------------------------- division by a variable

  lemma ProductAtLeast(k: nat, d: nat)
    requires k >= 1
    ensures k * d >= d
  {
    assert k * d == d + (k - 1) * d;
  }

  lemma ProductGrows(a: nat, b: nat, d: nat)
    requires a < b
    ensures b * d >= a * d + d
  {
    assert b * d == a * d + (b - a) * d;
    ProductAtLeast(b - a, d);
  }

  lemma QuotientUnique(q: int, z: int, d: nat, r: nat, m: nat)
    requires q * d + r == z * d + m && r < d && m < d
    ensures q == z && r == m
  {
    if z < q {
      assert (q - z) * d == q * d - z * d;
      ProductAtLeast(q - z, d);
    } else if z > q {
      assert (z - q) * d == z * d - q * d;
      ProductAtLeast(z - q, d);
    }
  }

  lemma DivideExactly(q: nat, d: nat, r: nat)
    requires r < d
    ensures (q * d + r) / d == q && (q * d + r) % d == r
  {
    var x := q * d + r;
    QuotientUnique(q, x / d, d, r, x % d);
  }

  lemma DivideMonotone(i: nat, k: nat, d: nat)
    requires d >= 1 && i <= k
    ensures i / d <= k / d
  {
    var a, b := i / d, k / d;
    if a > b {
      assert (a - b) * d == a * d - b * d;
      ProductAtLeast(a - b, d);
    }
  }
}
