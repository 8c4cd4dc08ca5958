/**
  Exact integer arithmetic for the rounding the simulator does in `double`:
  every floor and ceiling of a quotient of natural numbers is written as an
  integer division here.
 */
module Arithmetic {

  /** The ceiling of a/b. */
  function CeilDiv(a: nat, b: nat): nat
    requires b > 0
  {
    (a + b - 1) / b
  }

  /** CeilDiv(a, b) is the only c with b*(c-1) < a <= b*c. */
  lemma CeilDivUnique(a: nat, b: nat, c: int)
    requires b > 0
    requires a <= b * c < a + b
    ensures c == CeilDiv(a, b)
  {
    var q := CeilDiv(a, b);
    CeilDivBounds(a, b);
    if c < q {
      MulMonotone(b, c + 1, q);
    } else if q < c {
      MulMonotone(b, q + 1, c);
    }
  }

  lemma CeilDivBounds(a: nat, b: nat)
    requires b > 0
    ensures a <= b * CeilDiv(a, b) < a + b
  {
    var n := a + b - 1;
    assert n == b * (n / b) + n % b;
  }

  lemma MulMonotone(b: nat, x: int, y: int)
    requires x <= y
    ensures b * x <= b * y
  {
    assert b * (y - x) >= 0;
  }

  lemma CeilDivMonotone(a: nat, a': nat, b: nat)
    requires b > 0 && a <= a'
    ensures CeilDiv(a, b) <= CeilDiv(a', b)
  {
    CeilDivBounds(a, b);
    CeilDivBounds(a', b);
    if CeilDiv(a', b) < CeilDiv(a, b) {
      MulMonotone(b, CeilDiv(a', b) + 1, CeilDiv(a, b));
    }
  }

  lemma CeilDivPositive(a: nat, b: nat)
    requires b > 0
    ensures CeilDiv(a, b) > 0 <==> a > 0
  {
    CeilDivBounds(a, b);
    if a == 0 {
      CeilDivUnique(a, b, 0);
    }
  }

  /** The least c with a <= b*c is the ceiling. */
  lemma CeilDivLeast(a: nat, b: nat, c: nat)
    requires b > 0 && a <= b * c
    ensures CeilDiv(a, b) <= c
  {
    CeilDivBounds(a, b);
    if c < CeilDiv(a, b) {
      MulMonotone(b, c + 1, CeilDiv(a, b));
    }
  }

  /** A ceiling of a sum is at most the sum of the ceilings. */
  lemma CeilDivSubadditive(x: nat, y: nat, b: nat)
    requires b > 0
    ensures CeilDiv(x + y, b) <= CeilDiv(x, b) + CeilDiv(y, b)
  {
    CeilDivBounds(x, b);
    CeilDivBounds(y, b);
    hide CeilDiv;
    assert b * (CeilDiv(x, b) + CeilDiv(y, b)) == b * CeilDiv(x, b) + b * CeilDiv(y, b);
    CeilDivLeast(x + y, b, CeilDiv(x, b) + CeilDiv(y, b));
  }

  /** Adding c whole divisors adds c to the ceiling. */
  lemma CeilDivShift(a: nat, b: nat, c: nat)
    requires b > 0
    ensures CeilDiv(a + b * c, b) == CeilDiv(a, b) + c
  {
    CeilDivBounds(a, b);
    assert b * (CeilDiv(a, b) + c) == b * CeilDiv(a, b) + b * c;
    CeilDivUnique(a + b * c, b, CeilDiv(a, b) + c);
  }

  /** q is the floor of a/b exactly when b*q <= a < b*(q+1). */
  lemma FloorDivUnique(a: nat, b: nat, q: nat)
    requires b > 0
    ensures a / b == q <==> b * q <= a < b * (q + 1)
  {
    assert a == b * (a / b) + a % b;
    if b * q <= a < b * (q + 1) {
      if a / b < q {
        MulMonotone(b, a / b + 1, q);
      } else if q < a / b {
        MulMonotone(b, q + 1, a / b);
      }
    }
  }

  lemma ModOnce(a: nat, n: nat)
    requires a < 2 * n
    ensures a % n == if a < n then a else a - n
  {
    FloorDivUnique(a, n, if a < n then 0 else 1);
    assert a == n * (a / n) + a % n;
  }

  lemma ScaledDifference(c: nat, x: int, y: int, n: int)
    requires x <= y <= x + n
    ensures 0 <= c * y - c * x <= c * n
  {
    assert c * y - c * x == c * (y - x);
    MulMonotone(c, 0, y - x);
    MulMonotone(c, y - x, n);
  }
}
