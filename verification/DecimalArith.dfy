/** Fixed-point arithmetic with 18 decimals: a decimal is the integer number of its last-place units. */
module DecimalArith {
  import opened Basics

  /** One, in last-place units. */
  const P: int := 1_000_000_000_000_000_000

  const HALF: int := 500_000_000_000_000_000

  function Pow2(n: nat): (r: nat)
    ensures r >= 1
  {
    if n == 0 then 1 else 2 * Pow2(n - 1)
  }

  const MAX_BITS: nat := 315

  /** At most 315 bits. */
  predicate InRange(d: int) {
    Abs(d) < Pow2(MAX_BITS)
  }

  function Abs(x: int): (r: nat) {
    if x < 0 then -x else x
  }

  /** big.Int.Quo: the quotient towards zero. */
  function TruncQuo(a: int, b: int): int
    requires b != 0
  {
    Signed(a, b, DivNat(Abs(a), Abs(b)))
  }

  function DivNat(n: nat, d: nat): (r: nat)
    requires d > 0
  {
    n / d
  }

  /** q with the sign that a quotient of a and b has. */
  function Signed(a: int, b: int, q: int): int {
    if (a < 0) == (b < 0) then q else 0 - q
  }

  // ----- arithmetic facts -----

  lemma DivMod(n: nat, d: nat)
    requires d > 0
    ensures n == n / d * d + n % d && 0 <= n % d < d
  {
  }

  /** The quotient is the only number with a remainder in range. */
  lemma QuotientIs(n: nat, d: nat, q: int)
    requires d > 0 && q * d <= n < q * d + d
    ensures n / d == q
  {
    DivMod(n, d);
    assert (n / d - q) * d == n / d * d - q * d;
    SmallMultiple(n / d - q, d);
  }

  lemma SmallMultiple(x: int, d: nat)
    requires 0 - d < x * d < d
    ensures x == 0
  {
    if x > 0 {
      Scale(1, x, d);
    } else if x < 0 {
      Scale(x, -1, d);
    }
  }

  lemma Scale(a: int, b: int, c: nat)
    requires a <= b
    ensures a * c <= b * c
  {
    assert b * c == a * c + (b - a) * c;
    Positive(b - a, c);
  }

  lemma Positive(a: nat, b: nat)
    ensures a * b >= 0
  {
  }

  // ----- rounding -----

  /** chopPrecisionAndRound. */
  function ChopRound(d: int): int {
    if d < 0 then 0 - ChopNat(-d) else ChopNat(d)
  }

  function ChopNat(d: nat): (r: nat) {
    var quo, rem := d / P, d % P;
    if rem < HALF then quo
    else if rem > HALF then quo + 1
    else if quo % 2 == 0 then quo else quo + 1
  }

  /** The distance e from r times den is at most half of den, and half only if r is even. */
  predicate Near(e: int, den: int, r: int) {
    2 * Abs(e) <= den && (2 * Abs(e) == den ==> r % 2 == 0)
  }

  /** r is the integer nearest to num / den, the even one when two are nearest. */
  predicate NearestEven(r: int, num: int, den: int) {
    Near(num - r * den, den, r)
  }

  /** Rounding gives the nearest, ties to even. */
  lemma ChopRoundNearest(d: int)
    ensures NearestEven(ChopRound(d), d, P)
  {
  }

  /** There is only one nearest in this sense. */
  lemma NearestIsUnique(r: int, s: int, num: int, den: nat)
    requires den > 0 && NearestEven(r, num, den) && NearestEven(s, num, den)
    ensures r == s
  {
    GapProduct(r, s, den);
    NearGap(num - r * den, r, s - r, s * den - r * den, den);
  }

  lemma GapProduct(r: int, s: int, den: nat)
    ensures s - r >= 2 ==> s * den - r * den >= 2 * den
    ensures s - r <= -2 ==> s * den - r * den <= -2 * den
    ensures s - r == 1 ==> s * den - r * den == den
    ensures s - r == -1 ==> s * den - r * den == 0 - den
    ensures s == r ==> s * den - r * den == 0
  {
    var gap := s - r;
    assert s * den - r * den == gap * den;
    if gap >= 2 {
      Scale(2, gap, den);
    } else if gap <= -2 {
      Scale(gap, -2, den);
    }
  }

  lemma NearGap(e: int, r: int, gap: int, g: int, den: nat)
    requires den > 0 && Near(e, den, r) && Near(e - g, den, r + gap)
    requires gap >= 2 ==> g >= 2 * den
    requires gap <= -2 ==> g <= -2 * den
    requires -2 < gap < 2 ==> g == if gap == 1 then den else if gap == -1 then 0 - den else 0
    ensures gap == 0
  {
  }

  /** A larger number never rounds to a smaller one. */
  lemma ChopRoundMonotone(x: int, y: int)
    requires x <= y
    ensures ChopRound(x) <= ChopRound(y)
  {
  }

  // ----- multiplication -----

  /** Mul; None stands for the panic on a result out of range. */
  function Mul(a: int, b: int): Option<int> {
    if InRange(ChopRound(a * b)) then Some(ChopRound(a * b)) else None
  }

  /** Mul in full: it returns the exact product rounded to the nearest, ties to even, exactly if that has at most 315
      bits. */
  lemma MulExactly(a: int, b: int, r: int)
    ensures Mul(a, b) == Some(r) <==> NearestEven(r, a * b, P) && Abs(r) < Pow2(MAX_BITS)
  {
    ChopRoundNearest(a * b);
    if NearestEven(r, a * b, P) {
      NearestIsUnique(r, ChopRound(a * b), a * b, P);
    }
  }

  /** Multiplying with a factor that is not negative keeps the order. */
  lemma MulMonotone(a: int, b: int, c: int)
    requires a <= b && c >= 0 && Mul(a, c).Some? && Mul(b, c).Some?
    ensures Mul(a, c).value <= Mul(b, c).value
  {
    Scale(a, b, c);
    ChopRoundMonotone(a * c, b * c);
  }

  // ----- division -----

  /** Quo; None stands for the panics: division by zero and a result out of range. */
  function Quo(a: int, b: int): Option<int> {
    if b == 0 then None
    else
      var r := ChopRound(TruncQuo(a * P * P, b));
      if InRange(r) then Some(r) else None
  }

  function QuoTruncate(a: int, b: int): Option<int> {
    if b == 0 then None
    else
      var r := TruncQuo(TruncQuo(a * P * P, b), P);
      if InRange(r) then Some(r) else None
  }

  /** Dividing by b and then by p is dividing by p what was multiplied with p before. */
  lemma DivideTwice(m: nat, b: nat, p: nat)
    requires b > 0 && p > 0
    ensures m * p / b / p == m / b
  {
    var n := m * p;
    var q := n / b;
    var k, s := q / p, q % p;
    DivMod(n, b);
    DivMod(q, p);
    assert q * b == (k * p + s) * b == k * b * p + s * b;
    assert m * p == k * b * p + s * b + n % b;
    Scale(s, p - 1, b);
    assert 0 <= s * b by { Positive(s, b); }
    assert (m - k * b) * p == s * b + n % b;
    Cancel(m - k * b, b, p);
    QuotientIs(m, b, k);
  }

  lemma Cancel(x: int, b: nat, p: nat)
    requires p > 0 && 0 <= x * p < b * p
    ensures 0 <= x < b
  {
    if x < 0 {
      Scale(x, -1, p);
    } else if x >= b {
      Scale(b, x, p);
    }
  }

  lemma TruncTwice(x: int, b: int, p: nat)
    requires b != 0 && p > 0
    ensures TruncQuo(TruncQuo(x, b), p) ==
            if (x < 0) == (b < 0) then Abs(x) / Abs(b) / p else 0 - Abs(x) / Abs(b) / p
  {
    var q := Abs(x) / Abs(b);
    assert TruncQuo(x, b) == if (x < 0) == (b < 0) then q else 0 - q;
    TruncSigned(q, p);
  }

  lemma TruncSigned(q: nat, p: nat)
    requires p > 0
    ensures TruncQuo(q, p) == q / p && TruncQuo(0 - q, p) == 0 - q / p
  {
    if q == 0 {
      QuotientIs(0, p, 0);
    }
  }

  /** Truncating twice is truncating once. */
  lemma TruncatedTwice(a: int, b: int)
    requires b != 0
    ensures TruncQuo(TruncQuo(a * P * P, b), P) == TruncQuo(a * P, b)
  {
    var m := Abs(a) * P;
    TruncTwice(a * P * P, b, P);
    DivideTwice(m, Abs(b), P);
    assert Abs(a * P * P) == m * P && Abs(a * P) == m;
  }

  lemma TruncError(x: int, b: int)
    requires b != 0
    ensures Abs(x - TruncQuo(x, b) * b) < Abs(b)
  {
    DivMod(Abs(x), Abs(b));
    var q := Abs(x) / Abs(b);
    assert q * Abs(b) == if b < 0 then 0 - q * b else q * b;
    assert (0 - q) * b == 0 - q * b;
  }

  /** q is x / b without its fraction: the remainder is less than b and has the sign of x. */
  predicate Truncates(q: int, x: int, b: int) {
    Abs(x - q * b) < Abs(b) && (x >= 0 ==> x - q * b >= 0) && (x <= 0 ==> x - q * b <= 0)
  }

  lemma TimesAbs(q: int, b: int)
    ensures q * Abs(b) == if b < 0 then 0 - q * b else q * b
    ensures (0 - q) * b == 0 - q * b
  {
  }

  lemma QuotientTruncates(x: int, b: int)
    requires b != 0
    ensures Truncates(TruncQuo(x, b), x, b)
  {
    var q := DivNat(Abs(x), Abs(b));
    DivMod(Abs(x), Abs(b));
    TimesAbs(q, b);
    Positive(q, Abs(b));
    RemainderIs(x, b, q * b, Abs(x) % Abs(b));
  }

  lemma RemainderIs(x: int, b: int, product: int, rem: nat)
    requires b != 0 && rem < Abs(b) && (if b < 0 then product <= 0 else product >= 0)
    requires Abs(x) == (if b < 0 then 0 - product else product) + rem
    ensures var e := x - Signed(x, b, product);
            Abs(e) < Abs(b) && (x >= 0 ==> e >= 0) && (x <= 0 ==> e <= 0)
  {
  }

  lemma CloseTogether(e: int, f: int, x: int, b: nat)
    requires Abs(e) < b && Abs(f) < b && (x >= 0 ==> e >= 0 && f >= 0) && (x <= 0 ==> e <= 0 && f <= 0)
    ensures 0 - b < e - f < b
  {
  }

  lemma TruncatesOnce(q: int, s: int, x: int, b: int)
    requires b != 0 && Truncates(q, x, b) && Truncates(s, x, b)
    ensures q == s
  {
    CloseTogether(x - q * b, x - s * b, x, Abs(b));
    assert (s - q) * b == s * b - q * b;
    TimesAbs(s - q, b);
    SmallMultiple(s - q, Abs(b));
  }

  /** Towards zero, in full. */
  lemma TruncQuoExactly(x: int, b: int, q: int)
    requires b != 0
    ensures TruncQuo(x, b) == q <==> Truncates(q, x, b)
  {
    QuotientTruncates(x, b);
    if Truncates(q, x, b) {
      TruncatesOnce(q, TruncQuo(x, b), x, b);
    }
  }

  /** QuoTruncate in full: it returns the exact quotient without its fraction, exactly if b is not zero and that has at
      most 315 bits. */
  lemma QuoTruncateExactly(a: int, b: int, r: int)
    ensures QuoTruncate(a, b) == Some(r) <==> b != 0 && Truncates(r, a * P, b) && Abs(r) < Pow2(MAX_BITS)
  {
    if b != 0 {
      TruncatedTwice(a, b);
      TruncQuoExactly(a * P, b, r);
    }
  }

  /** Quo in full: it truncates, with 18 more decimals, then rounds to the nearest, ties to even, and returns that
      exactly if b is not zero and it has at most 315 bits. */
  lemma QuoExactly(a: int, b: int, r: int)
    ensures Quo(a, b) == Some(r) <==>
            && b != 0 && Abs(r) < Pow2(MAX_BITS)
            && exists t :: Truncates(t, a * P * P, b) && NearestEven(r, t, P)
  {
    if b != 0 {
      RoundedQuotient(a * P * P, b, r);
    }
  }

  lemma RoundedQuotient(x: int, b: int, r: int)
    requires b != 0
    ensures ChopRound(TruncQuo(x, b)) == r <==> exists t :: Truncates(t, x, b) && NearestEven(r, t, P)
  {
    var q := TruncQuo(x, b);
    QuotientTruncates(x, b);
    ChopRoundNearest(q);
    forall t | Truncates(t, x, b) && NearestEven(r, t, P) ensures ChopRound(q) == r {
      TruncatesOnce(q, t, x, b);
      NearestIsUnique(r, ChopRound(q), q, P);
    }
  }

  lemma AbsTimes(a: int, b: int)
    ensures Abs(a * b) == Abs(a) * Abs(b)
  {
    assert a * b == 0 - (0 - a) * b == 0 - a * (0 - b) == (0 - a) * (0 - b);
    Positive(Abs(a), Abs(b));
  }

  lemma ErrorBound(r: int, t: int, b: int, x: int)
    requires 2 * Abs(t - r * P) <= P && Abs(x * P - t * b) < Abs(b)
    ensures 2 * P * Abs(r * b - x) < (P + 2) * Abs(b)
  {
    var e := t - r * P;
    Decompose(r, t, b, x);
    AbsTimes(e, b);
    Scale(2 * Abs(e), P, Abs(b));
    assert 2 * Abs(e) * Abs(b) == 2 * Abs(e * b);
  }

  lemma Decompose(r: int, t: int, b: int, x: int)
    ensures (r * b - x) * P + (t - r * P) * b + (x * P - t * b) == 0
  {
    assert (t - r * P) * b == t * b - r * P * b;
    assert r * P * b == P * (r * b);
  }

  /** Quo is less than half a last-place unit and 10^-18 of one away from the exact quotient a * P / b. */
  lemma QuoErrorBound(a: int, b: int)
    requires Quo(a, b).Some?
    ensures 2 * P * Abs(Quo(a, b).value * b - a * P) < (P + 2) * Abs(b)
  {
    var t := TruncQuo(a * P * P, b);
    TruncError(a * P * P, b);
    ChopRoundNearest(t);
    ErrorBound(ChopRound(t), t, b, a * P);
  }

  // ----- when division rounds to the nearest -----

  /** The digits that rounding chops off are exactly one half, and the division before it left a remainder. */
  predicate TieWithRemainder(a: int, b: int)
    requires b != 0
  {
    var n, d := Abs(a) * P * P, Abs(b);
    n / d % P == HALF && n % d != 0
  }

  /** An even quotient in front of such digits. */
  predicate EvenQuotient(a: int, b: int)
    requires b != 0
  {
    Abs(a) * P * P / Abs(b) / P % 2 == 0
  }

  lemma HalfCompare(e: int, s: int, d: nat, m: int)
    requires e * P == s * d + m && 0 <= m < d && 0 <= s < P
    ensures 0 <= e < d
    ensures s < HALF ==> 2 * e < d
    ensures s > HALF ==> 2 * e > d
    ensures s == HALF ==> (if m == 0 then 2 * e == d else 2 * e > d)
  {
    Scale(0, s, d);
    Scale(s, P - 1, d);
    if s < HALF {
      Scale(s, HALF - 1, d);
    } else if s > HALF {
      Scale(HALF + 1, s, d);
    }
  }

  /** What is left of n after k times d, from the two divisions. */
  lemma Remainders(n: nat, d: nat)
    requires d > 0
    ensures (n - n * P / d / P * d) * P == n * P / d % P * d + n * P % d
  {
    var t := n * P / d;
    var k, s := t / P, t % P;
    DivMod(n * P, d);
    assert t == k * P + s;
    assert t * d == k * P * d + s * d == k * d * P + s * d;
  }

  lemma ChopNearestExactly(n: nat, d: nat)
    requires d > 0
    ensures var t := n * P / d;
            NearestEven(ChopNat(t), n, d) <==> !(t % P == HALF && n * P % d != 0 && t / P % 2 == 0)
  {
    var t := n * P / d;
    var k, s, m := t / P, t % P, n * P % d;
    Remainders(n, d);
    DivMod(n * P, d);
    HalfCompare(n - k * d, s, d, m);
    assert (k + 1) * d == k * d + d;
  }

  /** Quo gives the nearest, ties to even, exactly when it does not meet such a tie with an even quotient. */
  lemma QuoNearestExactly(a: int, b: int)
    requires Quo(a, b).Some?
    ensures NearestEven(Signed(a, b, Quo(a, b).value), Abs(a) * P, Abs(b)) <==>
            !(TieWithRemainder(a, b) && EvenQuotient(a, b))
  {
    QuoMagnitude(a, b);
    ChopNearestExactly(Abs(a) * P, Abs(b));
  }

  lemma QuoMagnitude(a: int, b: int)
    requires Quo(a, b).Some?
    ensures Signed(a, b, Quo(a, b).value) == ChopNat(DivNat(Abs(a) * P * P, Abs(b)))
  {
    ScaledSign(a);
    ChopSigned(a * P * P, b, DivNat(Abs(a) * P * P, Abs(b)));
  }

  lemma ScaledSign(a: int)
    ensures Abs(a * P * P) == Abs(a) * P * P && (a * P * P < 0 <==> a < 0)
  {
  }

  lemma ChopSigned(x: int, b: int, q: nat)
    requires b != 0 && q == DivNat(Abs(x), Abs(b))
    ensures ChopRound(TruncQuo(x, b)) == Signed(x, b, ChopNat(q))
  {
    assert TruncQuo(x, b) == Signed(x, b, q);
  }

  /** Such a tie: one last-place unit divided by 2 - 10^-18 is more than half a unit, and rounds to zero. */
  lemma QuoIsNotNearest()
    ensures Quo(1, 2 * P - 1) == Some(0) && !NearestEven(0, P, 2 * P - 1) && NearestEven(1, P, 2 * P - 1)
  {
    QuotientIs(P * P, 2 * P - 1, HALF);
    assert P * P == HALF * (2 * P - 1) + HALF;
    assert ChopRound(HALF) == 0;
    assert Abs(0) < Pow2(MAX_BITS);
  }

  // ----- big integers are objects that operations change -----

  class BigInt {
    var value: int

    constructor (value: int)
      ensures this.value == value
    {
      this.value := value;
    }
  }

  /** chopPrecisionAndRound rounds its argument in place and returns it. */
  method ChopPrecisionAndRound(d: BigInt) returns (r: BigInt)
    modifies d
    ensures r == d && r.value == ChopRound(old(d.value))
    decreases d.value < 0
  {
    if d.value < 0 {
      d.value := -d.value;
      r := ChopPrecisionAndRound(d);
      r.value := -r.value;
      return r;
    }
    r := d;
    var rem := d.value % P;
    r.value := d.value / P;
    if rem == 0 || rem < HALF {
      return r;
    }
    if rem > HALF || r.value % 2 != 0 {
      r.value := r.value + 1;
    }
  }

  /** Mul leaves its operands alone although it rounds in place. */
  method MulDec(d: BigInt, d2: BigInt) returns (r: Option<BigInt>)
    ensures r.Some? <==> Mul(d.value, d2.value).Some?
    ensures r.Some? ==> fresh(r.value) && r.value.value == Mul(d.value, d2.value).value
    ensures r.Some? ==> NearestEven(r.value.value, d.value * d2.value, P)
    ensures r.None? ==> forall x :: NearestEven(x, d.value * d2.value, P) ==> Abs(x) >= Pow2(MAX_BITS)
  {
    forall x ensures Mul(d.value, d2.value) == Some(x) <==>
                     NearestEven(x, d.value * d2.value, P) && Abs(x) < Pow2(MAX_BITS) {
      MulExactly(d.value, d2.value, x);
    }
    var mul := new BigInt(d.value * d2.value);
    var chopped := ChopPrecisionAndRound(mul);
    return if InRange(chopped.value) then Some(chopped) else None;
  }
}
