/** The page rounding both allocators perform before asking the operating
    system for memory: `(n + ps - 1) / ps * ps`. Both operands are
    non-negative, so Go's truncating division and Dafny's Euclidean division
    agree here. */
module Pages {

  /** The least multiple of the page size `ps` that is at least `n`. */
  function RoundUp(n: nat, ps: nat): (c: nat)
    requires ps > 0
    ensures c % ps == 0
    ensures n <= c < n + ps
    ensures n == 0 ==> c == 0
  {
    var q := (n + ps - 1) / ps;
    DivMulIsMultiple(q, ps);
    q * ps
  }

  /** A product with `ps` leaves no remainder modulo `ps`. */
  lemma DivMulIsMultiple(q: nat, ps: nat)
    requires ps > 0
    ensures (q * ps) % ps == 0
  {
    var d, r := (q * ps) / ps, (q * ps) % ps;
    assert q * ps == d * ps + r && 0 <= r < ps;
    assert (q - d) * ps == r;
    if q > d {
      AtLeastOnePage(q - d, ps);
    } else if q < d {
      AtLeastOnePage(d - q, ps);
    }
  }

  /** The only positive multiple of the page size below two pages is one
      page. */
  lemma OnePage(c: nat, ps: nat)
    requires ps > 0 && 0 < c < 2 * ps && c % ps == 0
    ensures c == ps
  {
    PositiveMultiple(c, ps);
    if c > ps {
      MultiplesApart(ps, c, ps);
    }
  }

  lemma AtLeastOnePage(k: int, ps: nat)
    requires k >= 1 && ps > 0
    ensures k * ps >= ps
  {
  }

  /** A positive multiple of the page size is at least one page. */
  lemma PositiveMultiple(m: nat, ps: nat)
    requires ps > 0 && m > 0 && m % ps == 0
    ensures m >= ps
  {
    var q := m / ps;
    assert m == q * ps;
    AtLeastOnePage(q, ps);
  }

  /** Two different multiples of the page size are at least a page apart. */
  lemma MultiplesApart(m: nat, c: nat, ps: nat)
    requires ps > 0 && m % ps == 0 && c % ps == 0 && m < c
    ensures m <= c - ps
  {
    var a, b := m / ps, c / ps;
    assert m == a * ps && c == b * ps;
    if b <= a {
      MoreQuotientMore(b, a, ps);
    }
    AtLeastOnePage(b - a, ps);
    assert (b - a) * ps == b * ps - a * ps;
  }

  lemma MoreQuotientMore(a: nat, b: nat, ps: nat)
    requires a <= b
    ensures a * ps <= b * ps
  {
    assert b * ps - a * ps == (b - a) * ps;
  }
}
