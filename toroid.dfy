/** Wrap-around arithmetic for the toroidal grid (index.js:26-27). */
module Toroid {

  /** JavaScript's `%` operator on integers: the remainder truncates toward
      zero, so it takes the sign of the dividend (`-1 % 30 == -1`). The
      range, the sign and the congruence together fix the value. */
  function JsRem(a: int, n: int): (r: int)
    requires n > 0
    ensures -n < r < n
    ensures a >= 0 ==> 0 <= r
    ensures a < 0 ==> r <= 0
    ensures (a - r) % n == 0
  {
    if a >= 0 then
      RemainderUnique(a - a % n, n, a / n, 0);
      a % n
    else
      RemainderUnique(a + (-a) % n, n, -((-a) / n), 0);
      -((-a) % n)
  }

  /** `mod(a, n) = ((a % n) + n) % n` with JavaScript's `%`: the
      representative of `a` modulo `n` in `[0, n)`, that is the Euclidean
      remainder, negative dividends included. */
  function Mod(a: int, n: int): (r: int)
    requires n > 0
    ensures 0 <= r < n
    ensures r == a % n
  {
    ModIsEuclidean(a, n);
    JsRem(JsRem(a, n) + n, n)
  }

  /** A remainder is determined by any quotient that leaves it in `[0, n)`. */
  lemma RemainderUnique(a: int, n: int, q: int, r: int)
    requires n > 0 && 0 <= r < n && a == q * n + r
    ensures a % n == r
  {
    var q0, r0 := a / n, a % n;
    assert a == q0 * n + r0;
    assert (q - q0) * n == r0 - r;
    if q > q0 {
      MultipleAtLeast(q - q0, n);
    } else if q < q0 {
      MultipleAtLeast(q0 - q, n);
    }
  }

  lemma {:induction false} MultipleAtLeast(k: int, n: int)
    requires k >= 1 && n > 0
    ensures k * n >= n
  {
    if k > 1 {
      MultipleAtLeast(k - 1, n);
      assert k * n == (k - 1) * n + n;
    }
  }

  /** The JavaScript expression agrees with the Euclidean remainder. */
  lemma ModIsEuclidean(a: int, n: int)
    requires n > 0
    ensures JsRem(JsRem(a, n) + n, n) == a % n
  {
    var j := JsRem(a, n);
    if a >= 0 {
      RemainderUnique(j + n, n, 1, j);
    } else {
      var m, d := (-a) % n, (-a) / n;
      assert -a == d * n + m;
      if m == 0 {
        RemainderUnique(j + n, n, 1, 0);
        RemainderUnique(a, n, -d, 0);
      } else {
        RemainderUnique(j + n, n, 0, n - m);
        RemainderUnique(a, n, -d - 1, n - m);
      }
    }
  }

  /** One step either way from a cell of `[0, n)` wraps only at the ends. */
  lemma ModNear(x: int, n: int)
    requires 0 <= x < n
    ensures Mod(x, n) == x
    ensures Mod(x - 1, n) == if x == 0 then n - 1 else x - 1
    ensures Mod(x + 1, n) == if x == n - 1 then 0 else x + 1
  {
    RemainderUnique(x, n, 0, x);
    if x == 0 {
      RemainderUnique(x - 1, n, -1, n - 1);
    } else {
      RemainderUnique(x - 1, n, 0, x - 1);
    }
    if x == n - 1 {
      RemainderUnique(x + 1, n, 1, 0);
    } else {
      RemainderUnique(x + 1, n, 0, x + 1);
    }
  }

  /** The wrap-arounds the neighbour scan relies on at the grid's edges. */
  lemma ModEdges(n: int)
    requires n > 0
    ensures Mod(-1, n) == n - 1
    ensures Mod(n, n) == 0
    ensures Mod(0, n) == 0
  {
    RemainderUnique(-1, n, -1, n - 1);
    RemainderUnique(n, n, 1, 0);
    RemainderUnique(0, n, 0, 0);
  }
}
