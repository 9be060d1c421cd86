/** Division and remainder by a positive number that is not a literal. */
module Division {

  lemma DivMod(k: nat, c: nat)
    requires c > 0
    ensures k == c * (k / c) + k % c && 0 <= k % c < c && k / c >= 0
  {
  }

  lemma AtLeast(c: nat, d: nat)
    requires d >= 1
    ensures c * d >= c
  {
  }

  /** Quotient and remainder are determined by their defining equation. */
  lemma Unique(c: nat, q: nat, r: nat)
    requires r < c
    ensures (c * q + r) / c == q && (c * q + r) % c == r
  {
    var k := c * q + r;
    DivMod(k, c);
    assert c * (k / c - q) == r - k % c;
    assert c * (q - k / c) == k % c - r;
    if k / c > q {
      AtLeast(c, k / c - q);
    }
    if k / c < q {
      AtLeast(c, q - k / c);
    }
  }

  lemma Same(k: nat, j: nat, c: nat)
    requires c > 0 && k % c + j < c
    ensures (k + j) / c == k / c && (k + j) % c == k % c + j
  {
    DivMod(k, c);
    Unique(c, k / c, k % c + j);
  }

  lemma Step(k: nat, c: nat)
    requires c > 0
    ensures (k + c) / c == k / c + 1 && (k + c) % c == k % c
  {
    DivMod(k, c);
    assert k + c == c * (k / c + 1) + k % c;
    Unique(c, k / c + 1, k % c);
  }

  lemma Before(k: nat, c: nat)
    requires c > 0 && k > 0
    ensures k % c == 0 ==> (k - 1) / c + 1 == k / c
    ensures k % c != 0 ==> (k - 1) / c == k / c
  {
    DivMod(k, c);
    if k % c == 0 {
      if k < c {
        Unique(c, 0, k);
      }
      assert k - c + c == k;
      Step(k - c, c);
      Same(k - c, c - 1, c);
    } else {
      Unique(c, k / c, k % c - 1);
    }
  }

  lemma Monotone(k: nat, m: nat, c: nat)
    requires c > 0 && k <= m
    ensures 0 <= k / c <= m / c
  {
    DivMod(k, c);
    DivMod(m, c);
    assert c * (k / c) - c * (m / c) == c * (k / c - m / c);
    if m / c < k / c {
      AtLeast(c, k / c - m / c);
    }
  }

  lemma Head(k: nat, c: nat)
    requires c > 0
    ensures k >= k % c && (k - k % c) % c == 0 && (k - k % c) / c == k / c
  {
    DivMod(k, c);
    Unique(c, k / c, 0);
  }

  /** The offset in a unit of `c` blocks of 512 bytes. */
  lemma Offset(p: nat, c: nat)
    requires c > 0
    ensures p % (c * 512) == p / 512 % c * 512 + p % 512 < c * 512
    ensures p / (c * 512) == p / 512 / c
  {
    DivMod(p / 512, c);
    var q, r := p / 512 / c, p / 512 % c * 512 + p % 512;
    assert p == c * 512 * q + r;
    Unique(c * 512, q, r);
  }

  /** Different multiples of `c` are at least `c` apart. */
  lemma Multiples(k: nat, m: nat, c: nat)
    requires c > 0 && k % c == 0 && m % c == 0 && k < m
    ensures k + c <= m
  {
    DivMod(k, c);
    DivMod(m, c);
    Monotone(k, m, c);
    assert m - k == c * (m / c - k / c);
    AtLeast(c, m / c - k / c);
  }
}
