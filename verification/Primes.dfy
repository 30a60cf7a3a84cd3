/**
 A proof that 4294967291 is prime, by way of the large prime in one less than it, and
 of the large prime power in one less than that prime (Pocklington's criterion).
 */
module Primes {
  import opened NumberTheory

  function Pow(b: nat, k: nat): nat {
    if k == 0 then 1 else b * Pow(b, k - 1)
  }

  lemma {:induction false} PowAdd(b: nat, i: nat, j: nat)
    ensures Pow(b, i + j) == Pow(b, i) * Pow(b, j)
  {
    if i == 0 {
    } else {
      PowAdd(b, i - 1, j);
      Assoc(b, Pow(b, i - 1), Pow(b, j));
    }
  }

  lemma Assoc(a: int, b: int, c: int)
    ensures (a * b) * c == a * (b * c)
  {
  }

  // b^i and x leave the same remainder.
  ghost predicate Powers(n: int, b: nat, i: nat, x: int) {
    Divides(n, Pow(b, i) - x)
  }

  lemma PowersAdd(n: int, b: nat, i: nat, j: nat, x: int, y: int)
    requires Powers(n, b, i, x) && Powers(n, b, j, y)
    ensures Powers(n, b, i + j, x * y)
  {
    hide Pow;
    PowAdd(b, i, j);
    var s, t := Pow(b, i), Pow(b, j);
    DividesCombo(n, s - x, t - y, t, x);
    Products(s, t, x, y);
  }

  lemma Products(s: int, t: int, x: int, y: int)
    ensures t * (s - x) + x * (t - y) == s * t - x * y
  {
    assert t * (s - x) == s * t - x * t;
    assert x * (t - y) == x * t - x * y;
  }

  lemma PowersReduce(n: int, b: nat, i: nat, x: int, y: int, q: int)
    requires Powers(n, b, i, x) && x == q * n + y
    ensures Powers(n, b, i, y)
  {
    hide Pow;
    Witness(n, x - y, q);
    DividesCombo(n, Pow(b, i) - x, x - y, 1, 1);
  }

  lemma Square(n: int, b: nat, i: nat, x: int, y: int, q: int)
    requires Powers(n, b, i, x) && x * x == q * n + y
    ensures Powers(n, b, 2 * i, y)
  {
    hide Powers;
    PowersAdd(n, b, i, i, x, x);
    PowersReduce(n, b, 2 * i, x * x, y, q);
  }

  lemma SquareTimes(n: int, b: nat, i: nat, x: int, y: int, q: int)
    requires Powers(n, b, i, x) && (x * x) * b == q * n + y
    ensures Powers(n, b, 2 * i + 1, y)
  {
    First(n, b);
    hide Powers;
    PowersAdd(n, b, i, i, x, x);
    PowersAdd(n, b, 2 * i, 1, x * x, b);
    PowersReduce(n, b, 2 * i + 1, (x * x) * b, y, q);
  }

  lemma First(n: int, b: nat)
    ensures Powers(n, b, 1, b) && Powers(n, b, 0, 1)
  {
    assert Pow(b, 1) == b * Pow(b, 0);
    Witness(n, Pow(b, 1) - b, 0);
    Witness(n, Pow(b, 0) - 1, 0);
  }

  // ------------------------------------------------------------------
  // Exponents that give one
  // ------------------------------------------------------------------

  lemma PowersLess(n: int, b: nat, i: nat, j: nat, x: int)
    requires Powers(n, b, i, 1) && Powers(n, b, i + j, x)
    ensures Powers(n, b, j, x)
  {
    hide Pow;
    PowAdd(b, i, j);
    var s, t := Pow(b, i), Pow(b, j);
    DividesCombo(n, s - 1, s * t - x, -t, 1);
    assert -t * (s - 1) + 1 * (s * t - x) == t - x;
  }

  // Two exponents that give one have a common divisor that does.
  lemma {:induction false} CommonExponent(n: int, b: nat, i: nat, j: nat) returns (g: nat)
    requires i > 0 && j > 0 && Powers(n, b, i, 1) && Powers(n, b, j, 1)
    ensures g > 0 && Divides(g, i) && Divides(g, j) && Powers(n, b, g, 1)
    decreases i + j
  {
    hide Powers;
    if i == j {
      g := i;
      Witness(g, i, 1);
    } else if i < j {
      PowersLess(n, b, i, j - i, 1);
      g := CommonExponent(n, b, i, j - i);
      DividesCombo(g, i, j - i, 1, 1);
    } else {
      PowersLess(n, b, j, i - j, 1);
      g := CommonExponent(n, b, i - j, j);
      DividesCombo(g, i - j, j, 1, 1);
    }
  }

  lemma {:induction false} MultipleExponent(n: int, b: nat, g: nat, k: nat)
    requires Powers(n, b, g, 1)
    ensures Powers(n, b, g * k, 1)
    decreases k
  {
    hide Powers;
    if k == 0 {
      First(n, b);
    } else {
      MultipleExponent(n, b, g, k - 1);
      PowersAdd(n, b, g, g * (k - 1), 1, 1);
      assert g + g * (k - 1) == g * k;
    }
  }

  // ------------------------------------------------------------------
  // The criterion
  // ------------------------------------------------------------------

  // b has order f modulo every divisor of n: b^f is one; and b^m is not one, where
  // every proper divisor of f that an exponent below f has in common with it divides m.
  ghost predicate Certificate(n: nat, b: nat, f: nat, m: nat, u: int) {
    && n > 1 && f > 1 && Powers(n, b, f, 1)
    && Divides(n, u * (Pow(b, m) - 1) - 1)
    && (forall k: nat, g: nat :: 0 < k < f && g > 0 && Divides(g, k) && Divides(g, f) ==> Divides(g, m))
  }

  lemma DividesTrans(d: int, n: int, x: int)
    requires Divides(d, n) && Divides(n, x)
    ensures Divides(d, x)
  {
    var a :| n == d * a;
    var c :| x == n * c;
    Assoc(d, a, c);
    Witness(d, x, a * c);
  }

  // No smaller exponent gives one modulo a divisor of n.
  lemma NoSmaller(n: nat, b: nat, f: nat, m: nat, u: int, d: int, k: nat)
    requires Certificate(n, b, f, m, u) && Divides(d, n) && d > 1 && 0 < k < f
    ensures !Powers(d, b, k, 1)
  {
    hide Pow;
    if Powers(d, b, k, 1) {
      DividesTrans(d, n, Pow(b, f) - 1);
      var g := CommonExponent(d, b, k, f);
      assert Divides(g, m);
      var h :| m == g * h;
      Grows(g, h);
      MultipleExponent(d, b, g, if h < 0 then 0 else h);
      DividesTrans(d, n, u * (Pow(b, m) - 1) - 1);
      DividesCombo(d, Pow(b, m) - 1, u * (Pow(b, m) - 1) - 1, u, -1);
      NoSmallMultiple(d, 1);
    }
  }

  // The remainders of the first f powers are different, and none is zero.
  lemma DifferentPowers(n: nat, b: nat, f: nat, m: nat, u: int, d: int, i: nat, j: nat)
    requires Certificate(n, b, f, m, u) && Divides(d, n) && d > 1 && i < j < f
    ensures Pow(b, i) % d != Pow(b, j) % d
  {
    hide Pow;
    NoSmaller(n, b, f, m, u, d, j - i);
    if Pow(b, i) % d == Pow(b, j) % d {
      DividesTrans(d, n, Pow(b, f) - 1);
      SameMod(d, Pow(b, j), Pow(b, i));
      Shift(d, b, f, i, j);
    }
  }

  lemma Shift(d: int, b: nat, f: nat, i: nat, j: nat)
    requires i < j < f && Powers(d, b, f, 1) && Divides(d, Pow(b, j) - Pow(b, i))
    ensures Powers(d, b, j - i, 1)
  {
    hide Pow;
    var s := Pow(b, f - i);
    PowAdd(b, f - i, i);
    PowAdd(b, f - i, j);
    DividesCombo(d, Pow(b, j) - Pow(b, i), Pow(b, f) - 1, s, 1);
    assert s * (Pow(b, j) - Pow(b, i)) == s * Pow(b, j) - s * Pow(b, i);
    assert Powers(d, b, f + (j - i), 1);
    PowersLess(d, b, f, j - i, 1);
  }

  lemma NonzeroPower(n: nat, b: nat, f: nat, m: nat, u: int, d: int, i: nat)
    requires Certificate(n, b, f, m, u) && Divides(d, n) && d > 1 && i < f
    ensures 0 < Pow(b, i) % d < d
  {
    hide Pow;
    if Pow(b, i) % d == 0 {
      ModDivides(d, Pow(b, i));
      DividesTrans(d, n, Pow(b, f) - 1);
      PowAdd(b, f - i, i);
      DividesCombo(d, Pow(b, i), Pow(b, f) - 1, Pow(b, f - i), -1);
      NoSmallMultiple(d, 1);
    }
  }

  function Rem(b: nat, d: nat, i: nat): nat
    requires d > 0
  {
    Pow(b, i) % d
  }

  ghost function Remainders(b: nat, d: nat, k: nat): set<nat>
    requires d > 0
  {
    if k == 0 then {} else Remainders(b, d, k - 1) + {Rem(b, d, k - 1)}
  }

  lemma {:induction false} CountRemainders(n: nat, b: nat, f: nat, m: nat, u: int, d: nat, k: nat)
    requires Certificate(n, b, f, m, u) && Divides(d, n) && d > 1 && k <= f
    ensures |Remainders(b, d, k)| == k && Remainders(b, d, k) <= UpTo(d)
    ensures forall x :: x in Remainders(b, d, k) ==> exists i: nat :: i < k && x == Rem(b, d, i)
    decreases k
  {
    hide Certificate;
    hide Divides;
    hide Rem;
    hide UpTo;
    if k == 0 {
    } else {
      CountRemainders(n, b, f, m, u, d, k - 1);
      NewRemainder(n, b, f, m, u, d, k - 1);
    }
  }

  lemma NewRemainder(n: nat, b: nat, f: nat, m: nat, u: int, d: nat, k: nat)
    requires Certificate(n, b, f, m, u) && Divides(d, n) && d > 1 && k < f
    ensures 0 < Rem(b, d, k) < d
    ensures forall i: nat :: i < k ==> Rem(b, d, i) != Rem(b, d, k)
  {
    hide Certificate;
    hide Divides;
    hide Pow;
    NonzeroPower(n, b, f, m, u, d, k);
    forall i: nat | i < k ensures Rem(b, d, i) != Rem(b, d, k) {
      DifferentPowers(n, b, f, m, u, d, i, k);
    }
  }

  lemma {:induction false} Subset(a: set<nat>, b: set<nat>)
    requires a <= b
    ensures |a| <= |b|
  {
    assert b == a + (b - a);
  }

  /** Every divisor is larger than the order. */
  lemma LargeDivisors(n: nat, b: nat, f: nat, m: nat, u: int, d: nat)
    requires Certificate(n, b, f, m, u) && Divides(d, n) && d > 1
    ensures d > f
  {
    hide Certificate;
    hide Remainders;
    hide UpTo;
    CountRemainders(n, b, f, m, u, d, f);
    Subset(Remainders(b, d, f), UpTo(d));
  }

  lemma Criterion(n: nat, b: nat, f: nat, m: nat, u: int)
    requires Certificate(n, b, f, m, u) && f * f > n
    ensures Prime(n)
  {
    hide Powers;
    forall d: int | 1 < d < n ensures !Divides(d, n) {
      if Divides(d, n) {
        LargeDivisors(n, b, f, m, u, d);
        var e :| n == d * e;
        Grows(d, e);
        Witness(e, n, d);
        Cofactor(d, e);
        LargeDivisors(n, b, f, m, u, e);
        BothLarge(d, e, f);
        assert false;
      }
    }
  }

  lemma Cofactor(d: int, e: int)
    requires d > 1 && e >= 1 && d * e > d
    ensures e > 1
  {
  }

  lemma BothLarge(d: int, e: int, f: int)
    requires d > f > 0 && e > f
    ensures d * e > f * f
  {
    Scale(f, d, e);
    Scale(f, e, f);
  }

  lemma Scale(x: int, y: int, z: int)
    requires x < y && z > 0
    ensures x * z < y * z && z * x < z * y
  {
  }

  // ------------------------------------------------------------------
  // 181, 22605091 and 4294967291
  // ------------------------------------------------------------------

  lemma Prime181()
    ensures Prime(181)
  {
    forall d: int | 1 < d < 181 ensures !Divides(d, 181) {
      if Divides(d, 181) {
        var e :| 181 == d * e;
        Grows(d, e);
        Small(d, e);
        assert false;
      }
    }
  }

  lemma Small(d: int, e: int)
    requires 1 < d < 181 && 1 <= e
    ensures d * e != 181
  {
    if d <= 13 {
      assert 181 % d != 0;
      if d * e == 181 { ModDivides(d, 181); Witness(d, 181, e); }
    } else if e <= 13 {
      assert e > 1 ==> 181 % e != 0;
      if d * e == 181 && e > 1 { Witness(e, 181, d); ModDivides(e, 181); }
    } else {
      BothLarge(d, e, 13);
    }
  }

  // The proper divisors of 181 * 181 divide 181.
  lemma SquareDivisors(k: nat, g: nat)
    requires 0 < k < 32761 && g > 0 && Divides(g, k) && Divides(g, 32761)
    ensures Divides(g, 181)
  {
    Prime181();
    NotBeyond(g, k);
    var h :| 32761 == g * h;
    Witness(181, g * h, 181);
    Euclid(181, g, h);
    if Divides(181, h) {
      var h' :| h == 181 * h';
      Thirds(g, 181, h', 181);
      Witness(g, 181, h');
    } else {
      var g' :| g == 181 * g';
      Assoc(181, g', h);
      assert g' * h == 181;
      Grows(181, g');
      if g' > 1 { ProperFactor(g', h); }
      assert g' == 1;
      Witness(g, 181, 1);
    }
  }

  lemma Thirds(g: int, p: int, h: int, q: int)
    requires g * (p * h) == p * q && p > 0
    ensures g * h == q
  {
    Assoc(g, p, h);
    assert g * (p * h) == p * (g * h);
    CancelLeft(p, g * h, q);
  }

  lemma CancelLeft(p: int, x: int, y: int)
    requires p > 0 && p * x == p * y
    ensures x == y
  {
    assert p * (x - y) == 0;
    Grows(p, x - y);
    Grows(p, y - x);
  }

  // A factor of the prime 181 that is not 1 is 181, so its multiple by 181 is too large.
  lemma ProperFactor(g: int, h: int)
    requires g > 1 && g * h == 181
    ensures g >= 181
  {
    Prime181();
    Witness(g, 181, h);
  }

  lemma Chain2(n: int, b: nat)
    requires n == 22605091 && b == 18389778
    ensures Powers(n, b, 32761, 1)
  {
    hide Powers;
    First(n, b);
    SquareTimes(n, b, 1, 18389778, 18694817, 275120656925485);
    SquareTimes(n, b, 3, 18694817, 3991823, 284323438955809);
    SquareTimes(n, b, 7, 3991823, 10446987, 12963216643725);
    SquareTimes(n, b, 15, 10446987, 12830595, 88787603792757);
    SquareTimes(n, b, 31, 12830595, 8572888, 133925667627182);
    SquareTimes(n, b, 63, 8572888, 8077143, 59789445638979);
    SquareTimes(n, b, 127, 8077143, 5894688, 53074482763974);
    SquareTimes(n, b, 255, 5894688, 16329565, 28267791108737);
    SquareTimes(n, b, 511, 16329565, 5776459, 216929921165501);
    SquareTimes(n, b, 1023, 5776459, 10349018, 27145235711800);
    SquareTimes(n, b, 2047, 10349018, 9799090, 87130159978802);
    Square(n, b, 4095, 9799090, 10622299, 4247811);
    Square(n, b, 8190, 10622299, 14739265, 4991496);
    SquareTimes(n, b, 16380, 14739265, 1, 176734722036539);
  }

  lemma Chain3(n: int, b: nat)
    requires n == 22605091 && b == 18389778
    ensures Powers(n, b, 181, 13954217)
  {
    hide Powers;
    First(n, b);
    Square(n, b, 1, 18389778, 18881964, 14960520);
    SquareTimes(n, b, 2, 18881964, 22134795, 290044448472423);
    SquareTimes(n, b, 5, 22134795, 19857376, 398585260909814);
    Square(n, b, 11, 19857376, 18167953, 17443653);
    SquareTimes(n, b, 22, 18167953, 15500452, 268523452374650);
    Square(n, b, 45, 15500452, 15607508, 10628756);
    SquareTimes(n, b, 90, 15607508, 13954217, 198169748967325);
  }

  lemma Prime22605091()
    ensures Prime(22605091)
  {
    hide Pow;
    var n, b, u := 22605091, 18389778, 19569746;
    Chain2(n, b);
    Chain3(n, b);
    InverseOf(n, Pow(b, 181), 13954217, u, 12080485);
    forall k: nat, g: nat | 0 < k < 32761 && g > 0 && Divides(g, k) && Divides(g, 32761) ensures Divides(g, 181) {
      SquareDivisors(k, g);
    }
    Criterion(n, b, 32761, 181, u);
  }

  // If x is s modulo n and u inverts s - 1, then u inverts x - 1.
  lemma InverseOf(n: int, x: int, s: int, u: int, q: int)
    requires Divides(n, x - s) && u * (s - 1) - 1 == n * q
    ensures Divides(n, u * (x - 1) - 1)
  {
    Witness(n, u * (s - 1) - 1, q);
    DividesCombo(n, x - s, u * (s - 1) - 1, u, 1);
    assert u * (x - s) + 1 * (u * (s - 1) - 1) == u * (x - 1) - 1 by {
      assert u * (x - s) == u * x - u * s && u * (s - 1) == u * s - u && u * (x - 1) == u * x - u;
    }
  }

  lemma Chain1(n: int, b: nat)
    requires n == 4294967291 && b == 1073745729
    ensures Powers(n, b, 22605091, 1)
  {
    hide Powers;
    First(n, b);
    Square(n, b, 1, 1073745729, 3504919713, 268437408);
    SquareTimes(n, b, 2, 3504919713, 2762101756, 3071126721297293695);
    Square(n, b, 5, 2762101756, 1474251975, 1776312971);
    SquareTimes(n, b, 10, 1474251975, 4065820878, 543356698160813817);
    SquareTimes(n, b, 21, 4065820878, 1820247785, 4132739887760620961);
    Square(n, b, 43, 1820247785, 3855700258, 771438237);
    Square(n, b, 86, 3855700258, 1858816020, 3461359184);
    Square(n, b, 172, 1858816020, 2210652769, 804475741);
    SquareTimes(n, b, 344, 2210652769, 3255072328, 1221750860959417051);
    SquareTimes(n, b, 689, 3255072328, 2036108090, 2648883601675193906);
    SquareTimes(n, b, 1379, 2036108090, 2579436866, 1036437809065933574);
    Square(n, b, 2759, 2579436866, 1810740027, 1549137419);
    SquareTimes(n, b, 5518, 1810740027, 3638735613, 819697843377527508);
    SquareTimes(n, b, 11037, 3638735613, 2142344274, 3310111257399430197);
    Square(n, b, 22075, 2142344274, 164317185, 1068608601);
    SquareTimes(n, b, 44150, 164317185, 3827152162, 6750058878062893);
    Square(n, b, 88301, 3827152162, 305512203, 3410292251);
    Square(n, b, 176602, 305512203, 999910711, 21731878);
    SquareTimes(n, b, 353204, 999910711, 3852027162, 249956266825425717);
    Square(n, b, 706409, 3852027162, 894754220, 3454767464);
    Square(n, b, 1412818, 894754220, 2824842023, 186400747);
    Square(n, b, 2825636, 2824842023, 3541280234, 1857926245);
    SquareTimes(n, b, 5651272, 3541280234, 4191888076, 3135177829598793928);
    SquareTimes(n, b, 11302545, 4191888076, 1, 4392997392001035133);
  }

  /** The modulus of the permutation is prime. */
  lemma Prime4294967291()
    ensures Prime(4294967291)
  {
    hide Pow;
    var n, b, u := 4294967291, 1073745729, 1771216906;
    Prime22605091();
    Chain1(n, b);
    First(n, b);
    InverseOf(n, Pow(b, 1), b, u, 442805837);
    forall k: nat, g: nat | 0 < k < 22605091 && g > 0 && Divides(g, k) && Divides(g, 22605091) ensures Divides(g, 1) {
      NotBeyond(g, k);
      assert g == 1;
      Witness(g, 1, 1);
    }
    Criterion(n, b, 22605091, 1, u);
  }
}
