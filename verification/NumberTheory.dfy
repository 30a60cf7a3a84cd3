/**
 Divisibility, primes, and squares modulo a prime.
 */
module NumberTheory {
  ghost predicate Divides(p: int, n: int) {
    exists k: int :: n == p * k
  }

  ghost predicate Prime(p: int) {
    p > 1 && forall d: int :: 1 < d < p ==> !Divides(d, p)
  }

  lemma Witness(p: int, n: int, k: int)
    requires n == p * k
    ensures Divides(p, n)
  {
  }

  lemma DividesCombo(p: int, m: int, n: int, u: int, v: int)
    requires Divides(p, m) && Divides(p, n)
    ensures Divides(p, u * m + v * n)
  {
    var a :| m == p * a;
    var b :| n == p * b;
    Factor(p, a, b, u, v);
    Witness(p, u * m + v * n, u * a + v * b);
  }

  lemma Factor(p: int, a: int, b: int, u: int, v: int)
    ensures u * (p * a) + v * (p * b) == p * (u * a + v * b)
  {
    assert u * (p * a) == p * (u * a);
    assert v * (p * b) == p * (v * b);
    assert p * (u * a + v * b) == p * (u * a) + p * (v * b);
  }

  lemma NoSmallMultiple(p: int, n: int)
    requires p > 0 && -p < n < p && Divides(p, n)
    ensures n == 0
  {
    var k :| n == p * k;
    Grows(p, k);
  }

  lemma Grows(p: int, k: int)
    requires p > 0
    ensures k >= 1 ==> p * k >= p
    ensures k <= 0 ==> p * k <= 0
    ensures k <= -1 ==> p * k <= -p
  {
  }

  lemma ModDivides(p: int, n: int)
    requires p > 0
    ensures Divides(p, n - n % p)
    ensures Divides(p, n) <==> n % p == 0
  {
    Witness(p, n - n % p, n / p);
    if Divides(p, n) {
      var k :| n == p * k;
      DividesCombo(p, n, n - n % p, 1, -1);
      NoSmallMultiple(p, n % p);
    }
  }

  lemma SameMod(p: int, m: int, n: int)
    requires p > 0 && m % p == n % p
    ensures Divides(p, m - n)
  {
    ModDivides(p, m);
    ModDivides(p, n);
    DividesCombo(p, m - m % p, n - n % p, 1, -1);
    assert 1 * (m - m % p) + -1 * (n - n % p) == m - n;
  }

  // A common divisor as a combination.
  lemma {:induction false} Bezout(a: nat, b: nat) returns (u: int, v: int, g: nat)
    requires a > 0 || b > 0
    ensures g > 0 && g == u * a + v * b && Divides(g, a) && Divides(g, b)
    decreases b
  {
    if b == 0 {
      u, v, g := 1, 0, a;
      Witness(g, a, 1);
      Witness(g, b, 0);
    } else {
      var u', v', g' := Bezout(b, a % b);
      u, v, g := v', u' - v' * (a / b), g';
      assert a == b * (a / b) + a % b;
      Regroup(a, b, a / b, a % b, u', v');
      DividesCombo(g, b, a % b, a / b, 1);
      assert (a / b) * b + 1 * (a % b) == a;
    }
  }

  lemma Regroup(a: int, b: int, q: int, r: int, u: int, v: int)
    requires a == b * q + r
    ensures v * a + (u - v * q) * b == u * b + v * r
  {
    assert v * a == v * (b * q) + v * r;
    assert (u - v * q) * b == u * b - (v * q) * b;
    assert (v * q) * b == v * (b * q);
  }

  /** Modulo a prime, what is not zero has an inverse. */
  lemma Inverse(p: nat, a: nat) returns (u: int)
    requires Prime(p) && 0 < a < p
    ensures Divides(p, u * a - 1)
  {
    var u', v, g := Bezout(a, p);
    assert g == 1 by {
      NotBeyond(g, a);
    }
    u := u';
    Witness(p, u * a - 1, -v);
  }

  lemma NotBeyond(g: int, a: int)
    requires g > 0 && a > 0 && Divides(g, a)
    ensures g <= a
  {
    var k :| a == g * k;
    Grows(g, k);
  }

  /** A prime that divides a product divides one of the factors. */
  lemma Euclid(p: nat, a: int, b: int)
    requires Prime(p) && Divides(p, a * b)
    ensures Divides(p, a) || Divides(p, b)
  {
    ModDivides(p, a);
    if a % p != 0 {
      var u := Inverse(p, a % p);
      // b == u*a*b - (u*a - 1)*b
      DividesCombo(p, a - a % p, u * (a % p) - 1, u, 1);
      assert u * (a - a % p) + 1 * (u * (a % p) - 1) == u * a - 1 by { Spread(u, a, a % p); }
      DividesCombo(p, a * b, u * a - 1, u, -b);
      Cancel(u, a, b);
    }
  }

  lemma Spread(u: int, a: int, r: int)
    ensures u * (a - r) + (u * r - 1) == u * a - 1
  {
    assert u * (a - r) == u * a - u * r;
  }

  lemma Cancel(u: int, a: int, b: int)
    ensures u * (a * b) + -b * (u * a - 1) == b
  {
    assert u * (a * b) == b * (u * a);
    assert -b * (u * a - 1) == -(b * (u * a)) + b;
  }

  // ------------------------------------------------------------------
  // Minus one is not a square modulo a prime that is 3 modulo 4
  // ------------------------------------------------------------------

  function Turn(p: nat, c: int, z: nat): nat
    requires p > 0
  {
    (c * z) % p
  }

  lemma TurnSum(p: nat, c: int, z: nat, t: nat, r: nat)
    requires Divides(p, c * c + 1) && Divides(p, c * z - t) && Divides(p, c * t - r)
    ensures Divides(p, r + z)
  {
    hide Divides;
    // r + z == (r - c*t) + c*(t - c*z) + z*(c*c + 1)
    DividesCombo(p, c * t - r, c * z - t, -1, -c);
    DividesCombo(p, -1 * (c * t - r) + -c * (c * z - t), c * c + 1, 1, z);
    Collect(c, z, t, r);
  }

  // With c * c == -1, turning twice is taking the opposite.
  lemma TurnTwice(p: nat, c: int, z: nat)
    requires p > 1 && Divides(p, c * c + 1) && 0 < z < p
    ensures 0 < Turn(p, c, z) < p && Turn(p, c, Turn(p, c, z)) == p - z
  {
    hide Divides;
    var t := Turn(p, c, z);
    var r := Turn(p, c, t);
    ModDivides(p, c * z);
    ModDivides(p, c * t);
    TurnSum(p, c, z, t, r);
    Between(p, r + z);
    if t == 0 {
      ZeroTurn(c);
    }
  }

  lemma ZeroTurn(c: int)
    ensures c * 0 == 0
  {
  }

  lemma Collect(c: int, z: int, t: int, r: int)
    ensures 1 * (-1 * (c * t - r) + -c * (c * z - t)) + z * (c * c + 1) == r + z
  {
    assert -c * (c * z - t) == -(c * c) * z + c * t by {
      assert -c * (c * z) == -(c * c) * z;
    }
    assert z * (c * c + 1) == (c * c) * z + z;
  }

  lemma Between(p: int, n: int)
    requires p > 0 && 0 < n < 2 * p && Divides(p, n)
    ensures n == p
  {
    var k :| n == p * k;
    Grows(p, k);
    Grows(p, k - 1);
    Grows(p, k - 2);
    assert p * (k - 1) == p * k - p && p * (k - 2) == p * k - 2 * p;
  }

  ghost predicate Closed(p: nat, c: int, s: set<nat>)
    requires p > 0
  {
    forall z :: z in s ==> 0 < z < p && Turn(p, c, z) in s
  }

  // The four numbers reached by turning.
  ghost function Orbit(p: nat, c: int, z: nat): set<nat>
    requires 0 < z < p && Turn(p, c, z) < p
  {
    var t := Turn(p, c, z);
    {z, t, p - z, p - t}
  }

  lemma OrbitOfFour(p: nat, c: int, z: nat)
    requires p % 2 == 1 && p > 1 && Divides(p, c * c + 1) && 0 < z < p
    ensures 0 < Turn(p, c, z) < p && |Orbit(p, c, z)| == 4
    ensures forall w :: w in Orbit(p, c, z) ==> 0 < w < p && Turn(p, c, w) in Orbit(p, c, z)
    ensures forall w :: 0 < w < p && Turn(p, c, w) in Orbit(p, c, z) ==> w in Orbit(p, c, z)
  {
    var t := Turn(p, c, z);
    TurnTwice(p, c, z);
    TurnTwice(p, c, t);
    TurnTwice(p, c, p - z);
    hide Turn;
    assert Turn(p, c, p - z) == p - t;
    TurnTwice(p, c, p - t);
    assert t != z && t != p - z;
    forall w | 0 < w < p && Turn(p, c, w) in Orbit(p, c, z) ensures w in Orbit(p, c, z) {
      TurnTwice(p, c, w);
    }
  }

  lemma OrbitInside(p: nat, c: int, s: set<nat>, z: nat)
    requires p % 2 == 1 && p > 1 && Divides(p, c * c + 1) && Closed(p, c, s) && z in s
    ensures Turn(p, c, z) < p && Orbit(p, c, z) <= s
  {
    hide Turn;
    var t := Turn(p, c, z);
    TurnTwice(p, c, z);
    TurnTwice(p, c, t);
    assert Turn(p, c, t) in s && Turn(p, c, p - z) in s;
  }

  lemma {:induction false} FourDivides(p: nat, c: int, s: set<nat>)
    requires p % 2 == 1 && p > 1 && Divides(p, c * c + 1) && Closed(p, c, s)
    ensures |s| % 4 == 0
    decreases s
  {
    hide Turn;
    hide Orbit;
    if s == {} {
    } else {
      var z :| z in s;
      OrbitOfFour(p, c, z);
      OrbitInside(p, c, s, z);
      var o := Orbit(p, c, z);
      FourDivides(p, c, s - o);
      assert |s| == |s - o| + |o|;
    }
  }

  ghost function UpTo(p: nat): (r: set<nat>)
    requires p > 0
    ensures |r| == p - 1 && forall z: nat :: z in r <==> 0 < z < p
  {
    if p == 1 then {} else UpTo(p - 1) + {p - 1}
  }

  lemma NoRoot(p: nat, c: int)
    requires p % 4 == 3
    ensures !Divides(p, c * c + 1)
  {
    hide Turn;
    hide UpTo;
    if Divides(p, c * c + 1) {
      var all := UpTo(p);
      forall z | z in all ensures Turn(p, c, z) in all {
        TurnTwice(p, c, z);
      }
      FourDivides(p, c, all);
      assert false;
    }
  }

  /** A prime that is 3 modulo 4 divides a sum of two squares only if it divides both. */
  lemma SumOfSquares(p: nat, x: nat, y: nat)
    requires Prime(p) && p % 4 == 3 && x < p && 0 < y < p
    ensures !Divides(p, x * x + y * y)
  {
    var u := Inverse(p, y);
    NoRoot(p, u * x);
    if Divides(p, x * x + y * y) {
      // (u*x)*(u*x) + 1 == u*u*(x*x + y*y) - (u*y - 1)*(u*y + 1)
      DividesCombo(p, x * x + y * y, u * y - 1, u * u, -(u * y + 1));
      Squares(u, x, y);
      assert false;
    }
  }

  lemma Squares(u: int, x: int, y: int)
    ensures (u * u) * (x * x + y * y) + -(u * y + 1) * (u * y - 1) == (u * x) * (u * x) + 1
  {
    assert (u * u) * (x * x) == (u * x) * (u * x);
    assert (u * u) * (y * y) == (u * y) * (u * y);
    assert (u * u) * (x * x + y * y) == (u * u) * (x * x) + (u * u) * (y * y);
    var w := u * y;
    assert -(w + 1) * (w - 1) == -(w * w) + 1;
  }
}
