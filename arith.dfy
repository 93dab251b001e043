/**
 * Facts about multiplication, division and remainder that the solver does
 * not find unaided. Dafny's `/` and `%` are Euclidean: for a positive
 * divisor they are floor division and a non-negative remainder.
 */
module Arith {
  lemma {:induction false} MulAtLeast(x: nat, b: nat)
    requires x >= 1
    ensures x * b >= b
  {
    if x > 1 {
      MulAtLeast(x - 1, b);
      assert x * b == (x - 1) * b + b;
    }
  }

  lemma MulMono(x: nat, y: nat, b: nat)
    requires x <= y
    ensures x * b <= y * b
  {
    if x < y {
      MulAtLeast(y - x, b);
      assert y * b == x * b + (y - x) * b;
    }
  }

  lemma DivModUnique(a: int, b: nat, q: int, k: int)
    requires b > 0 && 0 <= k < b && a == q * b + k
    ensures a / b == q && a % b == k
  {
    var q', k' := a / b, a % b;
    assert a == q' * b + k';
    if q' > q {
      MulAtLeast(q' - q, b);
    } else if q' < q {
      MulAtLeast(q - q', b);
    }
  }

  lemma DivAtLeast(a: int, b: nat, q: nat)
    requires b > 0 && a >= q * b
    ensures a / b >= q
  {
    var q' := a / b;
    assert a == q' * b + a % b;
    if q' < q {
      MulMono(q' + 1, q, b);
    }
  }
}
