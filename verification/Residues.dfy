/** How often a counter that goes round modulo `m` meets each residue. */
module Residues {

  function CountResidue(n: nat, m: nat, s: nat): nat
    requires m > 0
  {
    if n == 0 then 0 else CountResidue(n - 1, m, s) + if (n - 1) % m == s then 1 else 0
  }

  lemma DivModStep(n: nat, m: nat)
    requires m > 0
    ensures if n % m + 1 < m then (n + 1) / m == n / m && (n + 1) % m == n % m + 1
            else (n + 1) / m == n / m + 1 && (n + 1) % m == 0
  {
    var q, r := n / m, n % m;
    assert n == q * m + r;
    if r + 1 < m {
      DivModUnique(n + 1, m, q, r + 1);
    } else {
      assert n + 1 == (q + 1) * m;
      DivModUnique(n + 1, m, q + 1, 0);
    }
  }

  lemma DivModUnique(n: int, m: int, q: int, r: int)
    requires m > 0 && n == q * m + r && 0 <= r < m
    ensures n / m == q && n % m == r
  {
    var q', r' := n / m, n % m;
    assert q * m + r == q' * m + r';
    if q > q' {
      OneMoreMultiple(q', q, m);
    } else if q < q' {
      OneMoreMultiple(q, q', m);
    }
  }

  lemma DivModParts(n: int, m: int)
    requires m > 0
    ensures n == n / m * m + n % m
  {
  }

  lemma {:induction false} OneMoreMultiple(a: int, b: int, m: int)
    requires a < b && m > 0
    ensures a * m + m <= b * m
    decreases b - a
  {
    assert b * m == (b - 1) * m + m;
    if b > a + 1 {
      OneMoreMultiple(a, b - 1, m);
    }
  }

  lemma OneMoreResidue(q: nat, r: nat, q': nat, r': nat, m: nat, s: nat)
    requires r < m && s < m
    requires if r + 1 < m then q' == q && r' == r + 1 else q' == q + 1 && r' == 0
    ensures q' + (if s < r' then 1 else 0) == q + (if s < r then 1 else 0) + if r == s then 1 else 0
  {
  }

  /** Each residue is met floor(n / m) times, and the first n % m of them once more. */
  lemma {:induction false} CountResidueFormula(n: nat, m: nat, s: nat)
    requires m > 0 && s < m
    ensures CountResidue(n, m, s) == n / m + if s < n % m then 1 else 0
  {
    if n == 0 {
      DivModUnique(0, m, 0, 0);
    } else {
      CountResidueFormula(n - 1, m, s);
      DivModStep(n - 1, m);
      OneMoreResidue((n - 1) / m, (n - 1) % m, n / m, n % m, m, s);
    }
  }
}
