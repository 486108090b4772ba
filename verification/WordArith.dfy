/** Arithmetic on 64-bit words. Counters are kept as totals; the code sees them modulo the word size. */
module WordArith {

  const WORD: int := 0x1_0000_0000_0000_0000
  const HALF: int := 0x8000_0000_0000_0000

  type Word = x: nat | x < WORD

  function Wrap(x: int): Word { x % WORD }

  predicate CircularLess(a: Word, b: Word) { Wrap(a - b) > HALF }

  /** A difference that fits a signed word. */
  predicate InWindow(d: int) { -HALF <= d < HALF }

  lemma SameResidue(x: int, y: int, k: int)
    requires x == y + k * WORD
    ensures Wrap(x) == Wrap(y)
  {
    var q, r := y / WORD, y % WORD;
    assert x == (q + k) * WORD + r;
  }

  /** Within one turn of the counter, the circular comparison with a distance of `d` is the true one exactly
      inside the window. */
  lemma WindowIsNeeded(d: int)
    requires -WORD < d < WORD
    ensures (CircularLess(0, Wrap(d)) <==> d > 0) <==> InWindow(d)
  {
    if d < 0 {
      SameResidue(d, d + WORD, -1);
    }
    SameResidue(-(Wrap(d) as int), WORD - Wrap(d), -1);
  }

  lemma CircularLessIs(x: int, y: int)
    requires InWindow(y - x)
    ensures CircularLess(Wrap(x), Wrap(y)) <==> x < y
  {
    SameResidue(Wrap(x) - Wrap(y), x - y, y / WORD - x / WORD);
    SameResidue(0 - Wrap(y - x), x - y, (y - x) / WORD);
    WindowIsNeeded(y - x);
  }

  // ------------------------------------------------------------------ masks and sizes

  function Power2(k: nat): (r: nat)
    ensures r > 0
  {
    if k == 0 then 1 else 2 * Power2(k - 1)
  }

  ghost predicate PowerOfTwo(size: nat) { exists k: nat :: size == Power2(k) }

  /** Bitwise and. */
  function And(x: nat, y: nat): nat {
    if x == 0 || y == 0 then 0 else (x % 2) * (y % 2) + 2 * And(x / 2, y / 2)
  }

  /** Masking with one less than a power of two is the remainder. */
  lemma {:induction false} AndMask(x: nat, k: nat)
    ensures And(x, Power2(k) - 1) == x % Power2(k)
  {
    hide And;
    AndZero(x, Power2(k) - 1);
    if k > 0 && x > 0 {
      var half := Power2(k - 1);
      AndMask(x / 2, k - 1);
      AndMaskStep(x, half);
    } else if x == 0 {
      ModIs(0, Power2(k), 0, 0);
    }
  }

  lemma AndMaskStep(x: nat, half: nat)
    requires x > 0 && half > 0 && And(x / 2, half - 1) == (x / 2) % half
    ensures And(x, 2 * half - 1) == x % (2 * half)
  {
    hide And;
    ModTwice(x, half);
    OddHalf(half);
    AndStep(x, 2 * half - 1);
  }

  lemma OddHalf(half: int)
    ensures (2 * half - 1) % 2 == 1 && (2 * half - 1) / 2 == half - 1
  {}

  lemma AndZero(x: nat, y: nat)
    ensures And(x, 0) == 0 && And(0, y) == 0
  {}

  lemma AndStep(x: nat, y: nat)
    requires x > 0 && y % 2 == 1
    ensures And(x, y) == x % 2 + 2 * And(x / 2, y / 2)
  {}

  lemma ModTwice(x: nat, half: nat)
    requires half > 0
    ensures x % (2 * half) == x % 2 + 2 * ((x / 2) % half)
  {
    var q, r := (x / 2) / half, (x / 2) % half;
    ModIs(x, 2 * half, q, x % 2 + 2 * r);
  }

  lemma ModIs(x: int, m: int, q: int, r: int)
    requires 0 <= r < m && x == q * m + r
    ensures x % m == r && x / m == q
  {
    var q', r' := x / m, x % m;
    DivMod(x, m, q', r');
    QuotientUnique(m, q, r, q', r');
  }

  lemma DivMod(x: int, m: int, q: int, r: int)
    requires m > 0 && q == x / m && r == x % m
    ensures x == q * m + r && 0 <= r < m
  {}

  lemma QuotientUnique(m: int, q: int, r: int, q': int, r': int)
    requires 0 <= r < m && 0 <= r' < m && q * m + r == q' * m + r'
    ensures q == q' && r == r'
  {
    if q < q' {
      AtLeastOne(q' - q, m, q' * m - q * m);
    } else if q' < q {
      AtLeastOne(q - q', m, q * m - q' * m);
    }
  }

  lemma AtLeastOne(d: int, m: int, p: int)
    requires d >= 1 && m > 0 && p == d * m
    ensures p >= m
  {
    if d > 1 {
      AtLeastOne(d - 1, m, p - m);
    }
  }

  /** `x & (size - 1)`. */
  function Masked(x: nat, size: nat): (r: nat)
    requires size > 0
    ensures PowerOfTwo(size) ==> r == x % size
  {
    assert PowerOfTwo(size) ==> And(x, size - 1) == x % size by {
      if k: nat :| size == Power2(k) {
        AndMask(x, k);
      }
    }
    And(x, size - 1)
  }

  lemma {:induction false} Power2Product(i: nat, j: nat)
    ensures Power2(i + j) == Power2(i) * Power2(j)
  {
    if i > 0 {
      Power2Product(i - 1, j);
      assert Power2(i) * Power2(j) == 2 * (Power2(i - 1) * Power2(j));
    }
  }

  lemma WordIsPower()
    ensures Power2(64) == WORD
  {
    Power2Squared(4, 16);
    Power2Squared(8, 256);
    Power2Squared(16, 65536);
    Power2Squared(32, 0x1_0000_0000);
  }

  lemma Power2Squared(k: nat, p: int)
    requires p == Power2(k)
    ensures Power2(2 * k) == p * p
  {
    Power2Product(k, k);
  }

  lemma {:induction false} Power2Grows(j: nat, k: nat)
    requires j < k
    ensures Power2(j) < Power2(k)
  {
    if j < k - 1 {
      Power2Grows(j, k - 1);
    }
  }

  lemma WordMultiple(size: nat) returns (c: nat)
    requires PowerOfTwo(size) && size <= WORD
    ensures WORD == c * size
  {
    hide Power2;
    var k: nat :| size == Power2(k);
    WordIsPower();
    if 64 < k {
      Power2Grows(64, k);
    }
    var rest: nat := 64 - k;
    Power2Product(rest, k);
    c := Power2(rest);
  }

  /** A power of two that fits a word divides the word size, so masking ignores wrapping. */
  lemma WrapMod(x: int, size: nat)
    requires PowerOfTwo(size) && 0 < size <= WORD
    ensures Wrap(x) % size == x % size
  {
    var c := WordMultiple(size);
    DivMod(x, WORD, x / WORD, Wrap(x));
    DivMod(Wrap(x), size, Wrap(x) / size, Wrap(x) % size);
    RegroupMultiple(x / WORD, c, size, Wrap(x) / size, Wrap(x) % size, x);
    ModIs(x, size, (x / WORD) * c + Wrap(x) / size, Wrap(x) % size);
  }

  lemma RegroupMultiple(q: int, c: int, size: int, p: int, r: int, x: int)
    requires x == q * (c * size) + (p * size + r)
    ensures x == (q * c + p) * size + r
  {}

  lemma ModShift(a: int, k: int, m: int)
    requires m > 0
    ensures (a % m + k) % m == (a + k) % m
  {
    var q, r := (a % m + k) / m, (a % m + k) % m;
    DivMod(a % m + k, m, q, r);
    DivMod(a, m, a / m, a % m);
    assert a + k == (a / m + q) * m + r;
    ModIs(a + k, m, a / m + q, r);
  }

  lemma ModDistinct(a: int, b: int, m: int)
    requires 0 < a - b < m
    ensures a % m != b % m
  {
    if a % m == b % m {
      DivMod(a, m, a / m, a % m);
      DivMod(b, m, b / m, b % m);
      QuotientUnique(m, a / m - b / m, 0, 0, a - b);
    }
  }
}
