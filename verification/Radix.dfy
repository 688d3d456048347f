/** Division with remainder, and numbers written in mixed radix. */
module Radix {

  lemma MulMono(a: int, b: int, m: nat)
    requires a <= b
    ensures a * m <= b * m
  {}

  lemma MulPositive(a: nat, b: nat)
    requires a > 0 && b > 0
    ensures a * b > 0
  {}

  lemma MulZero(a: nat, b: nat, c: nat)
    requires a * (b * c) > 0
    ensures c > 0 && b * c > 0
  {}

  lemma DivModUnique(x: nat, m: nat, q: nat, r: nat)
    requires m > 0 && r < m && x == q * m + r
    ensures x / m == q && x % m == r
  {
    var d := x / m - q;
    assert d * m == r - x % m;
    if d >= 1 { MulMono(1, d, m); }
    if d <= -1 { MulMono(d, -1, m); }
  }

  lemma DivBound(x: nat, m: nat, n: nat)
    requires m > 0 && x < n * m
    ensures x / m < n
  {
    if x / m >= n { MulMono(n, x / m, m); }
  }

  lemma JoinBound(q: nat, r: nat, m: nat, n: nat)
    requires q < n && r < m
    ensures q * m + r < n * m
  {
    MulMono(q + 1, n, m);
  }

  lemma Split2(x: nat, m: nat, n: nat)
    requires m > 0 && x < n * m
    ensures x / m < n && x % m < m && x == (x / m) * m + x % m
  {
    DivBound(x, m, n);
  }

  /** The number q digits up, then r, in base m. */
  function Join(q: nat, m: nat, r: nat): nat { q * m + r }

  lemma JoinDivMod(x: nat, m: nat)
    requires m > 0
    ensures Join(x / m, m, x % m) == x
  {}

  /** The number with digits w, x, y, z where x < l, y < c and z < a. */
  function Join4(w: nat, l: nat, x: nat, c: nat, y: nat, a: nat, z: nat): nat {
    Join(Join(Join(w, l, x), c, y), a, z)
  }

  lemma Join4Digits(w: nat, l: nat, x: nat, c: nat, y: nat, a: nat, z: nat, o: nat)
    requires w < o && x < l && y < c && z < a
    ensures var k := Join4(w, l, x, c, y, a, z);
            && k < ((o * l) * c) * a
            && k % a == z && (k / a) % c == y && ((k / a) / c) % l == x && ((k / a) / c) / l == w
  {
    var row := Join(w, l, x);
    var die := Join(row, c, y);
    JoinBound(w, x, l, o);
    JoinBound(row, y, c, o * l);
    JoinBound(die, z, a, (o * l) * c);
    DivModUnique(Join(die, a, z), a, die, z);
    DivModUnique(die, c, row, y);
    DivModUnique(row, l, w, x);
  }

  lemma Split4(k: nat, l: nat, c: nat, a: nat)
    requires l > 0 && c > 0 && a > 0
    ensures Join4(((k / a) / c) / l, l, ((k / a) / c) % l, c, (k / a) % c, a, k % a) == k
  {
    JoinDivMod(k, a);
    JoinDivMod(k / a, c);
    JoinDivMod((k / a) / c, l);
  }

  lemma Split4Bound(k: nat, l: nat, c: nat, a: nat, o: nat)
    requires l > 0 && c > 0 && a > 0 && k < ((o * l) * c) * a
    ensures ((k / a) / c) / l < o
  {
    DivBound(k, a, (o * l) * c);
    DivBound(k / a, c, o * l);
    DivBound((k / a) / c, l, o);
  }

  /** Adding one to a mixed-radix number, carry by carry. */
  lemma Carry(w: nat, l: nat, x: nat, c: nat, y: nat, a: nat, z: nat)
    ensures Join4(w, l, x, c, y, a, z) + 1 == Join4(w, l, x, c, y, a, z + 1)
    ensures Join4(w, l, x, c, y, a, a) == Join4(w, l, x, c, y + 1, a, 0)
    ensures Join4(w, l, x, c, c, a, 0) == Join4(w, l, x + 1, c, 0, a, 0)
    ensures Join4(w, l, l, c, 0, a, 0) == Join4(w + 1, l, 0, c, 0, a, 0)
  {
    assert Join(Join(Join(w, l, x), c, y), a, a) == Join(Join(Join(w, l, x), c, y + 1), a, 0);
    assert Join(Join(w, l, x), c, c) == Join(Join(w, l, x + 1), c, 0);
    assert Join(w, l, l) == Join(w + 1, l, 0);
  }

  lemma Regroup(o: nat, l: nat, c: nat, a: nat)
    ensures ((o * l) * c) * a == (l * c) * (a * o)
  {
    assert (o * l) * c == o * (l * c);
    assert (o * (l * c)) * a == (l * c) * (o * a);
  }

  /** Stepping a page number that is not the last of its one-shot page of a pages. */
  lemma PgStepInside(pg: nat, a: nat, o: nat)
    requires a > 0 && pg < o * a && pg % a + 1 < a
    ensures pg + 1 < o * a && (pg + 1) / a == pg / a && (pg + 1) % a == pg % a + 1
  {
    DivBound(pg, a, o);
    JoinBound(pg / a, pg % a + 1, a, o);
    DivModUnique(pg + 1, a, pg / a, pg % a + 1);
  }

  /** Stepping a page number that is the last of its one-shot page. */
  lemma PgStepAcross(pg: nat, a: nat)
    requires a > 0 && pg % a + 1 == a
    ensures pg + 1 == (pg / a + 1) * a && pg + 1 >= a
    ensures (pg + 1) % a == 0 && (pg + 1) / a == pg / a + 1
    ensures (pg + 1 - a) / a == pg / a && (pg + 1 - a) % a == 0
  {
    var w := pg / a;
    assert pg == w * a + (a - 1);
    DivModUnique(pg + 1, a, w + 1, 0);
    DivModUnique(pg + 1 - a, a, w, 0);
  }

  lemma PgStep(pg: nat, a: nat, o: nat)
    requires a > 0 && pg < a * o
    ensures pg / a < o
    ensures pg % a + 1 < a ==> pg + 1 < a * o && (pg + 1) / a == pg / a && (pg + 1) % a == pg % a + 1
    ensures pg % a + 1 == a ==>
              && pg + 1 >= a && (pg + 1) % a == 0 && (pg + 1) / a == pg / a + 1
              && (pg + 1 - a) / a == pg / a && (pg + 1 - a) % a == 0
              && (pg / a + 1 == o <==> pg + 1 == a * o) && pg + 1 <= a * o
  {
    DivBound(pg, a, o);
    if pg % a + 1 < a {
      PgStepInside(pg, a, o);
    } else {
      PgStepAcross(pg, a);
      var w := pg / a;
      MulMono(w + 1, o, a);
      if w + 1 < o { MulMono(w + 2, o, a); }
    }
  }
}
