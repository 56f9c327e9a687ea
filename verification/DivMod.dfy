/** Division with a variable divisor. */
module DivMod {

  lemma ModUnique(a: nat, q: nat, r: nat, n: nat)
    requires n > 0 && a == q * n + r && r < n
    ensures a % n == r && a / n == q
  {
    var q', r' := a / n, a % n;
    assert a == q' * n + r';
    if q < q' {
      MulLe(q + 1, q', n);
    } else if q' < q {
      MulLe(q' + 1, q, n);
    }
  }

  lemma MulLe(a: nat, b: nat, n: nat)
    requires a <= b
    ensures a * n <= b * n
  {
  }

  lemma DivModSucc(a: nat, n: nat)
    requires n > 0
    ensures if a % n + 1 < n then (a + 1) % n == a % n + 1 && (a + 1) / n == a / n
            else a % n + 1 == n && (a + 1) % n == 0 && (a + 1) / n == a / n + 1
  {
    var q, r := a / n, a % n;
    assert a == q * n + r;
    if r + 1 < n {
      ModUnique(a + 1, q, r + 1, n);
    } else {
      assert (q + 1) * n == q * n + n;
      ModUnique(a + 1, q + 1, 0, n);
    }
  }

  lemma SumMod(x: nat, y: nat, n: nat)
    requires n > 0
    ensures (x + y) % n == (x % n + y % n) % n
  {
    var z := x % n + y % n;
    var qx, qy, qz := x / n, y / n, z / n;
    DivModSplit(x, n);
    DivModSplit(y, n);
    DivModSplit(z, n);
    Distribute(qx, qy, qz, n);
    ModUnique(x + y, qx + qy + qz, z % n, n);
  }

  lemma DivModSplit(x: nat, n: nat)
    requires n > 0
    ensures x == (x / n) * n + x % n
  {
  }

  lemma Distribute(a: nat, b: nat, c: nat, n: nat)
    ensures (a + b + c) * n == a * n + b * n + c * n
  {
  }
}
