/**
 The sequence of unique pseudo-random numbers: quadratic residues modulo a prime,
 composed twice with an addition and an exclusive or in between.
 */
module RandomSequences {
  import opened Coding
  import opened NumberTheory
  import opened Primes

  const WORD := UINT32
  const PRIME := 4294967291

  type Word = x: int | 0 <= x < WORD

  function Permute(x: Word): Word {
    if x >= PRIME then x
    else
      var residue := (x * x) % PRIME;
      if x <= PRIME / 2 then residue else PRIME - residue
  }

  /** Below the prime a number goes to its square up to half of the prime, and above that to
      the negative of its square, modulo the prime; the few numbers above stay. */
  lemma PermuteIsSquare(x: Word)
    ensures x >= PRIME ==> Permute(x) == x
    ensures x <= PRIME / 2 ==> Permute(x) < PRIME && Divides(PRIME, x * x - Permute(x))
    ensures PRIME / 2 < x < PRIME ==> Permute(x) <= PRIME && Divides(PRIME, x * x + Permute(x))
  {
    ModDivides(PRIME, x * x);
    if PRIME / 2 < x < PRIME {
      Witness(PRIME, PRIME, 1);
      DividesCombo(PRIME, x * x - (x * x) % PRIME, PRIME, 1, 1);
    }
  }

  // ------------------------------------------------------------------
  // Permute is one to one
  // ------------------------------------------------------------------

  // Squares are different in each half of the range.
  lemma SquaresDiffer(x: nat, y: nat)
    requires x < y < PRIME && (y <= PRIME / 2 || x > PRIME / 2)
    ensures (x * x) % PRIME != (y * y) % PRIME
  {
    if (x * x) % PRIME == (y * y) % PRIME {
      Prime4294967291();
      SameMod(PRIME, y * y, x * x);
      assert y * y - x * x == (y - x) * (y + x);
      Euclid(PRIME, y - x, y + x);
      if Divides(PRIME, y - x) {
        NoSmallMultiple(PRIME, y - x);
      } else if y <= PRIME / 2 {
        NoSmallMultiple(PRIME, y + x);
      } else {
        Between(PRIME, y + x);
      }
      assert false;
    }
  }

  // The two halves have no square and negated square in common.
  lemma HalvesDiffer(x: nat, y: nat)
    requires x <= PRIME / 2 < y < PRIME
    ensures (x * x) % PRIME != PRIME - (y * y) % PRIME
  {
    if (x * x) % PRIME == PRIME - (y * y) % PRIME {
      Prime4294967291();
      SumOfSquares(PRIME, x, y);
      ModDivides(PRIME, x * x);
      ModDivides(PRIME, y * y);
      DividesCombo(PRIME, x * x - (x * x) % PRIME, y * y - (y * y) % PRIME, 1, 1);
      Witness(PRIME, PRIME, 1);
      DividesCombo(PRIME, x * x + y * y - PRIME, PRIME, 1, 1);
      assert false;
    }
  }

  lemma NonzeroSquare(x: nat)
    requires 0 < x < PRIME
    ensures 0 < (x * x) % PRIME < PRIME
  {
    if (x * x) % PRIME == 0 {
      Prime4294967291();
      ModDivides(PRIME, x * x);
      Euclid(PRIME, x, x);
      NoSmallMultiple(PRIME, x);
    }
  }

  /** The permutation maps different words to different words. */
  lemma PermuteInjective(x: Word, y: Word)
    requires x < y
    ensures Permute(x) != Permute(y)
  {
    if y < PRIME {
      NonzeroSquare(y);
      if y <= PRIME / 2 || x > PRIME / 2 {
        SquaresDiffer(x, y);
      } else {
        HalvesDiffer(x, y);
      }
    } else {
      if 0 < x < PRIME { NonzeroSquare(x); }
    }
  }

  // Different words, in either order.
  lemma PermuteDiffers(x: Word, y: Word)
    requires x != y
    ensures Permute(x) != Permute(y)
  {
    if x < y { PermuteInjective(x, y); } else { PermuteInjective(y, x); }
  }

  ghost function Image(k: nat): set<int>
    requires k <= WORD
  {
    if k == 0 then {} else Image(k - 1) + {Permute(k - 1)}
  }

  lemma {:induction false} CountImage(k: nat)
    requires k <= WORD
    ensures |Image(k)| == k && forall y :: y in Image(k) ==> exists x: Word :: x < k && y == Permute(x)
    decreases k
  {
    hide Permute;
    if k == 0 {
    } else {
      CountImage(k - 1);
      forall x: Word | x < k - 1 ensures Permute(x) != Permute(k - 1) {
        PermuteInjective(x, k - 1);
      }
    }
  }

  ghost function Words(k: nat): (r: set<int>)
    ensures |r| == k && forall y :: y in r <==> 0 <= y < k
  {
    if k == 0 then {} else Words(k - 1) + {k - 1}
  }

  lemma FullSubset(a: set<int>, b: set<int>)
    requires a <= b && |a| == |b|
    ensures a == b
  {
    assert b == a + (b - a);
  }

  /** The permutation reaches every word. */
  lemma PermuteSurjective(y: Word) returns (x: Word)
    ensures Permute(x) == y
  {
    hide Permute;
    hide Image;
    hide Words;
    var n := WORD;
    CountImage(n);
    FullSubset(Image(n), Words(n));
    assert y in Words(n);
    x :| x < n && y == Permute(x);
  }

  // ------------------------------------------------------------------
  // Exclusive or
  // ------------------------------------------------------------------

  // Bit by bit over the low n bits.
  function XorBits(a: nat, b: nat, n: nat): (r: nat)
    ensures r < Pow2(n)
    decreases n
  {
    if n == 0 then 0 else 2 * XorBits(a / 2, b / 2, n - 1) + if a % 2 == b % 2 then 0 else 1
  }

  lemma {:induction false} XorUndone(a: nat, b: nat, n: nat)
    requires a < Pow2(n)
    ensures XorBits(XorBits(a, b, n), b, n) == a
    decreases n
  {
    if n == 0 {
    } else {
      var h, bit := XorBits(a / 2, b / 2, n - 1), if a % 2 == b % 2 then 0 else 1;
      Halves(h, bit);
      XorUndone(a / 2, b / 2, n - 1);
      assert XorBits(a, b, n) == 2 * h + bit;
    }
  }

  lemma Halves(h: nat, bit: nat)
    requires bit <= 1
    ensures (2 * h + bit) / 2 == h && (2 * h + bit) % 2 == bit
  {
  }

  // Bit k of a number.
  function BitOf(x: nat, k: nat): nat
    decreases k
  {
    if k == 0 then x % 2 else BitOf(x / 2, k - 1)
  }

  lemma {:induction false} XorAt(a: nat, b: nat, n: nat, k: nat)
    requires k < n
    ensures BitOf(XorBits(a, b, n), k) == 1 <==> BitOf(a, k) != BitOf(b, k)
    decreases k
  {
    var h, bit := XorBits(a / 2, b / 2, n - 1), if a % 2 == b % 2 then 0 else 1;
    assert XorBits(a, b, n) == 2 * h + bit;
    Halves(h, bit);
    if k == 0 {
    } else {
      XorAt(a / 2, b / 2, n - 1, k - 1);
    }
  }

  lemma WordBits()
    ensures Pow2(32) == WORD
  {
    assert Pow2(8) == 256;
    assert Pow2(16) == 65536;
    assert Pow2(24) == 16777216;
  }

  function Xor(a: Word, b: Word): Word {
    WordBits();
    XorBits(a, b, 32)
  }

  lemma XorDiffers(a: Word, b: Word, c: Word)
    requires a != b
    ensures Xor(a, c) != Xor(b, c)
  {
    WordBits();
    hide XorBits;
    hide Pow2;
    XorUndone(a, c, 32);
    XorUndone(b, c, 32);
  }

  // ------------------------------------------------------------------
  // The sequence
  // ------------------------------------------------------------------

  function Add(a: int, b: int): Word {
    (a + b) % WORD
  }

  lemma AddDiffers(a: Word, b: Word, c: int)
    requires a != b
    ensures Add(a, c) != Add(b, c)
  {
  }

  // The number at an index.
  function Output(mid: Word, index: Word): Word {
    Permute(Xor(Add(Permute(index), mid), 0x5bf03635))
  }

  /** The number at an index is the permutation of a word that has the bits of the permuted and
      shifted index turned over where the constant has ones. */
  lemma OutputIs(mid: Word, index: Word)
    ensures exists m: Word ::
              && Output(mid, index) == Permute(m)
              && forall k: nat :: k < 32 ==>
                   (BitOf(m, k) == 1 <==> BitOf((Permute(index) + mid) % 0x1_0000_0000, k) != BitOf(0x5bf03635, k))
  {
    hide Permute;
    hide XorBits;
    hide BitOf;
    var shifted := Add(Permute(index), mid);
    var m := Xor(shifted, 0x5bf03635);
    forall k: nat | k < 32 ensures BitOf(m, k) == 1 <==> BitOf(shifted, k) != BitOf(0x5bf03635, k) {
      XorAt(shifted, 0x5bf03635, 32, k);
    }
    assert Output(mid, index) == Permute(m);
  }

  /** Different indices give different numbers. */
  lemma OutputInjective(mid: Word, i: Word, j: Word)
    requires i != j
    ensures Output(mid, i) != Output(mid, j)
  {
    hide Permute;
    hide Xor;
    hide Add;
    PermuteDiffers(i, j);
    AddDiffers(Permute(i), Permute(j), mid);
    XorDiffers(Add(Permute(i), mid), Add(Permute(j), mid), 0x5bf03635);
    PermuteDiffers(Xor(Add(Permute(i), mid), 0x5bf03635), Xor(Add(Permute(j), mid), 0x5bf03635));
  }

  /** No number repeats within 2^32 calls, wherever the sequence stands. */
  lemma NoRepeats(mid: Word, index: Word, k: nat, l: nat)
    requires k < l < WORD
    ensures Output(mid, Add(index, k)) != Output(mid, Add(index, l))
  {
    OutputInjective(mid, Add(index, k), Add(index, l));
  }

  class RandomSequence {
    var midOffset: Word
    var index: Word

    constructor (seed: Word, base: Word, offset: Word)
      ensures midOffset == Permute(Add(Permute(seed), 0x46790905))
      ensures index == Add(Permute(Add(Permute(base), 0x682f0161)), offset)
    {
      index := Add(Permute(Add(Permute(base), 0x682f0161)), offset);
      midOffset := Permute(Add(Permute(seed), 0x46790905));
    }

    method Next() returns (r: Word)
      modifies this`index
      ensures r == Output(midOffset, old(index)) && index == Add(old(index), 1)
    {
      var i := index;
      index := Add(index, 1);
      r := Permute(Xor(Add(Permute(i), midOffset), 0x5bf03635));
    }

    method Skip(n: Word)
      modifies this`index
      ensures index == Add(old(index), n)
    {
      index := Add(index, n);
    }

    /** Any number of calls up to 2^32 gives as many different numbers. */
    method Draw(n: nat) returns (drawn: seq<Word>)
      requires n <= WORD
      modifies this`index
      ensures |drawn| == n && forall k, l :: 0 <= k < l < n ==> drawn[k] != drawn[l]
      ensures index == Add(old(index), n)
      ensures forall k :: 0 <= k < n ==> drawn[k] == Output(midOffset, Add(old(index), k))
    {
      hide Output;
      hide Permute;
      drawn := [];
      while |drawn| < n
        invariant |drawn| <= n && index == Add(old(index), |drawn|)
        invariant forall k :: 0 <= k < |drawn| ==> drawn[k] == Output(midOffset, Add(old(index), k))
      {
        var r := Next();
        drawn := drawn + [r];
      }
      forall k, l | 0 <= k < l < n ensures drawn[k] != drawn[l] {
        NoRepeats(midOffset, old(index), k, l);
      }
    }
  }
}
