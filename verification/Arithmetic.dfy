/** Facts about remainders that the solver does not find by itself. */
module Arithmetic {

  lemma MulSign(d: int, n: int)
    requires n > 0
    ensures d >= 1 ==> d * n >= n
    ensures d <= -1 ==> d * n <= -n
  {
    if d >= 1 {
      assert d * n == (d - 1) * n + n;
    } else if d <= -1 {
      assert d * n == (d + 1) * n - n;
    }
  }

  lemma ModUnique(x: int, n: int, q: int, r: int)
    requires 0 <= r < n && x == q * n + r
    ensures x % n == r
  {
    var d := x / n - q;
    assert d * n == (x / n) * n - q * n;
    assert d * n == r - x % n;
    MulSign(d, n);
  }

  /** `x % n` by repeated subtraction, which keeps the solver's arithmetic linear. */
  function Rem(x: nat, n: nat): (r: nat)
    requires n > 0
    ensures r < n && r <= x
  {
    if x < n then x else Rem(x - n, n)
  }

  lemma {:induction false} RemIsModulo(x: nat, n: nat)
    requires n > 0
    ensures Rem(x, n) == x % n
  {
    if x < n {
      ModUnique(x, n, 0, x);
    } else {
      RemIsModulo(x - n, n);
      var q := (x - n) / n;
      assert x == (q + 1) * n + (x - n) % n;
      ModUnique(x, n, q + 1, (x - n) % n);
    }
  }

  lemma {:induction false} RemMoves(x: nat, n: nat, to: nat)
    requires n > 0 && Rem(x, n) <= to <= n
    ensures Rem(x + (to - Rem(x, n)), n) == if to == n then 0 else to
  {
    if x >= n {
      RemMoves(x - n, n, to);
    } else if to == n {
      assert Rem(n, n) == Rem(0, n);
    }
  }
}
