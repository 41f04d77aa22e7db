/** Byte strings of decimals that sort as numbers, and where they do not. */
module DecimalSort {
  import opened Basics
  import opened Sequences
  import opened ByteOrder
  import opened DecimalArith
  import opened DecimalText

  /** MaxSortableDec, 10^18. */
  const MAX_SORTABLE: int := P * P

  const MAX: Bytes := [0x6d, 0x61, 0x78]
  const WIDTH: nat := 37

  /** Zeros on the left up to the width. */
  function Padded(s: Bytes): Bytes {
    if |s| < WIDTH then Zeros(WIDTH - |s|) + s else s
  }

  /** SortableDecBytes; None stands for the panic on a decimal that is out of bounds. */
  function Sortable(d: int): Option<Bytes> {
    if Abs(d) > MAX_SORTABLE then None
    else if d == MAX_SORTABLE then Some(MAX)
    else if d == 0 - MAX_SORTABLE then Some([MINUS, MINUS])
    else if d < 0 then Some([MINUS] + Padded(Text(Abs(d))))
    else Some(Padded(Text(d)))
  }

  // ----- the bound -----

  lemma {:induction false} Pow2Split(a: nat, b: nat)
    ensures Pow2(a + b) == Pow2(a) * Pow2(b)
  {
    if a > 0 {
      Pow2Split(a - 1, b);
      assert 2 * (Pow2(a - 1) * Pow2(b)) == 2 * Pow2(a - 1) * Pow2(b);
    }
  }

  lemma SixtyBits()
    ensures Pow2(60) > P
  {
    TwentyBits();
    Pow2Split(20, 20);
    Pow2Split(20, 40);
  }

  lemma TwentyBits()
    ensures Pow2(20) == 1_048_576
  {
    assert Pow2(10) == 1024;
    Pow2Split(10, 10);
  }

  /** The bound is what the division of one by the smallest decimal gives. */
  lemma MaxSortableIs()
    ensures Quo(P, 1) == Some(MAX_SORTABLE)
  {
    SixtyBits();
    Pow2Split(60, 60);
    Product(P, Pow2(60));
    Pow2Split(120, MAX_BITS - 120);
    AtLeast(Pow2(120), Pow2(MAX_BITS - 120));
    assert P * P * P / P == P * P && P * P * P % P == 0;
  }

  lemma Product(p: nat, q: nat)
    requires p < q
    ensures p * p < q * q
  {
    Scale(p, q, p);
    assert q * q == p * q + (q - p) * q;
    Positive(q - p - 1, q);
  }

  lemma AtLeast(a: nat, b: nat)
    requires b >= 1
    ensures a * b >= a
  {
    Scale(1, b, a);
  }

  // ----- numbers of one width -----

  lemma {:induction false} FixedOrder(n: nat, m: nat, k: nat)
    requires n < Pow10(k) && m < Pow10(k)
    ensures Less(Fixed(n, k), Fixed(m, k)) <==> n < m
    ensures Fixed(n, k) == Fixed(m, k) <==> n == m
  {
    NatOfFixed(n, k);
    NatOfFixed(m, k);
    if k > 0 {
      FixedOrder(n / 10, m / 10, k - 1);
      LessConcat(Fixed(n / 10, k - 1), [Digit(n % 10)], Fixed(m / 10, k - 1), [Digit(m % 10)]);
    }
  }

  /** The padded text of a decimal below the bound: both parts with all their digits. */
  function Key(n: nat, k: nat): Bytes {
    Fixed(n / P, k) + [DOT] + Fixed(n % P, k)
  }

  lemma PaddedText(n: nat, k: nat)
    requires n < MAX_SORTABLE && k == PRECISION
    ensures Padded(TextNat(n)) == Key(n, k) && |Key(n, k)| == WIDTH
  {
    Pow10Precision();
    WholeFits(n);
    PaddedParts(n / P, Fixed(n % P, k), k);
  }

  lemma WholeFits(n: nat)
    requires n < MAX_SORTABLE
    ensures n / P < P
  {
  }

  lemma PaddedParts(whole: nat, decs: Bytes, k: nat)
    requires k >= 1 && whole < Pow10(k)
    ensures |Decimal(whole)| <= k
    ensures Zeros(k - |Decimal(whole)|) + (Decimal(whole) + [DOT] + decs) == Fixed(whole, k) + [DOT] + decs
  {
    DecimalLength(whole, k);
    Padding(whole, k);
    PadFront(Decimal(whole), [DOT] + decs, k - |Decimal(whole)|);
    Associate(Decimal(whole), [DOT], decs);
    Associate(Fixed(whole, k), [DOT], decs);
  }

  lemma PadFront(a: Bytes, b: Bytes, k: nat)
    ensures Zeros(k) + (a + b) == Zeros(k) + a + b
  {
  }

  lemma KeyOrder(n: nat, m: nat, k: nat)
    requires n < MAX_SORTABLE && m < MAX_SORTABLE && k == PRECISION
    ensures Less(Key(n, k), Key(m, k)) <==> n < m
    ensures Key(n, k) == Key(m, k) <==> n == m
  {
    Pow10Precision();
    var a, b := Fixed(n / P, k) + [DOT], Fixed(m / P, k) + [DOT];
    LessConcat(a, Fixed(n % P, k), b, Fixed(m % P, k));
    LessConcat(Fixed(n / P, k), [DOT], Fixed(m / P, k), [DOT]);
    LessIrreflexive([DOT]);
    FixedOrder(n / P, m / P, k);
    FixedOrder(n % P, m % P, k);
    CutLast(Fixed(n / P, k), Fixed(m / P, k));
    CutAt(a, Fixed(n % P, k), b, Fixed(m % P, k));
  }

  lemma CutLast(a: Bytes, b: Bytes)
    ensures a + [DOT] == b + [DOT] <==> a == b
  {
    if a + [DOT] == b + [DOT] {
      assert a == (a + [DOT])[..|a|] && b == (b + [DOT])[..|b|];
    }
  }

  lemma CutAt(a: Bytes, x: Bytes, b: Bytes, y: Bytes)
    requires |a| == |b|
    ensures a + x == b + y <==> a == b && x == y
  {
    if a + x == b + y {
      assert a == (a + x)[..|a|] && b == (b + y)[..|b|] && x == (a + x)[|a|..] && y == (b + y)[|b|..];
    }
  }

  lemma KeyStart(n: nat, k: nat)
    requires k == PRECISION
    ensures Key(n, k) != [] && IsDigit(Key(n, k)[0])
  {
    assert Key(n, k)[0] == Fixed(n / P, k)[0];
  }

  // ----- the claims -----

  /** What the bytes are: the two bounds, or the key behind a minus for negative decimals. */
  lemma SortableIs(d: int, k: nat)
    requires Abs(d) <= MAX_SORTABLE && k == PRECISION
    ensures Sortable(d) == Some(if d == MAX_SORTABLE then MAX else if d == 0 - MAX_SORTABLE then [MINUS, MINUS]
                                else if d < 0 then [MINUS] + Key(Abs(d), k) else Key(d, k))
  {
    if Abs(d) < MAX_SORTABLE {
      PaddedText(Abs(d), k);
    }
  }

  /** Decimals that are not negative sort as numbers, the greatest included. */
  lemma SortsAsNumbers(a: int, b: int)
    requires 0 <= a <= MAX_SORTABLE && 0 <= b <= MAX_SORTABLE
    ensures Less(Sortable(a).value, Sortable(b).value) <==> a < b
  {
    SortsAsNumbersAt(a, b, PRECISION);
  }

  lemma SortsAsNumbersAt(a: int, b: int, k: nat)
    requires 0 <= a <= MAX_SORTABLE && 0 <= b <= MAX_SORTABLE && k == PRECISION
    ensures Less(Sortable(a).value, Sortable(b).value) <==> a < b
  {
    SortableIs(a, k);
    SortableIs(b, k);
    KeyStart(a, k);
    KeyStart(b, k);
    LessIrreflexive(MAX);
    if a < MAX_SORTABLE && b < MAX_SORTABLE {
      KeyOrder(a, b, k);
    }
  }

  lemma NegativesFirstAt(a: int, b: int, k: nat)
    requires 0 - MAX_SORTABLE <= a < 0 && a < b <= MAX_SORTABLE && k == PRECISION
    ensures b >= 0 || a == 0 - MAX_SORTABLE ==> Less(Sortable(a).value, Sortable(b).value)
  {
    SortableIs(a, k);
    SortableIs(b, k);
    KeyStart(Abs(a), k);
    KeyStart(Abs(b), k);
    if a == 0 - MAX_SORTABLE && b < 0 {
      LessFirst(MINUS, [MINUS], Key(Abs(b), k));
    }
  }

  lemma LessFirst(c: Byte, x: Bytes, y: Bytes)
    ensures Less([c] + x, [c] + y) <==> Less(x, y)
  {
    assert ([c] + x)[1..] == x && ([c] + y)[1..] == y;
  }

  lemma NegativesReversedAt(a: int, b: int, k: nat)
    requires 0 - MAX_SORTABLE < a < 0 && 0 - MAX_SORTABLE < b < 0 && k == PRECISION
    ensures Less(Sortable(a).value, Sortable(b).value) <==> b < a
  {
    SortableIs(a, k);
    SortableIs(b, k);
    LessFirst(MINUS, Key(Abs(a), k), Key(Abs(b), k));
    KeyOrder(Abs(a), Abs(b), k);
  }

  lemma SortableInjectiveAt(a: int, b: int, k: nat)
    requires Abs(a) <= MAX_SORTABLE && Abs(b) <= MAX_SORTABLE && k == PRECISION
    requires Sortable(a) == Sortable(b)
    ensures a == b
  {
    if a >= 0 && b >= 0 {
      LessIrreflexive(Sortable(a).value);
      SortsAsNumbersAt(a, b, k);
      SortsAsNumbersAt(b, a, k);
    } else if a < b {
      NegativeDiffers(a, b, k);
    } else if b < a {
      NegativeDiffers(b, a, k);
    }
  }

  lemma NegativeDiffers(a: int, b: int, k: nat)
    requires 0 - MAX_SORTABLE <= a < 0 && a < b <= MAX_SORTABLE && k == PRECISION
    ensures Sortable(a) != Sortable(b)
  {
    if b >= 0 || a == 0 - MAX_SORTABLE {
      NegativesFirstAt(a, b, k);
    } else {
      NegativesReversedAt(b, a, k);
    }
    SortableIs(a, k);
    LessIrreflexive(Sortable(a).value);
  }

  /** Every negative decimal comes before every other, and the least of them first of all. */
  lemma NegativesFirst(a: int, b: int)
    requires 0 - MAX_SORTABLE <= a < 0 && a < b <= MAX_SORTABLE
    ensures b >= 0 || a == 0 - MAX_SORTABLE ==> Less(Sortable(a).value, Sortable(b).value)
  {
    NegativesFirstAt(a, b, PRECISION);
  }

  /** Between negative decimals other than the least the order is the reverse. */
  lemma NegativesReversed(a: int, b: int)
    requires 0 - MAX_SORTABLE < a < 0 && 0 - MAX_SORTABLE < b < 0
    ensures Less(Sortable(a).value, Sortable(b).value) <==> b < a
  {
    NegativesReversedAt(a, b, PRECISION);
  }

  /** Different decimals have different bytes. */
  lemma SortableInjective(a: int, b: int)
    requires Abs(a) <= MAX_SORTABLE && Abs(b) <= MAX_SORTABLE && Sortable(a) == Sortable(b)
    ensures a == b
  {
    SortableInjectiveAt(a, b, PRECISION);
  }

  // ----- the bytes in full -----

  /** 18 digits on either side of the point, which write the number n. */
  ghost predicate IsKey(n: nat, b: Bytes) {
    exists whole, decs ::
      && AllDigits(whole) && AllDigits(decs) && |whole| == |decs| == PRECISION
      && NatOf(whole) * P + NatOf(decs) == n && b == whole + [DOT] + decs
  }

  lemma KeyIsOnly(n: nat, b: Bytes, k: nat)
    requires n < MAX_SORTABLE && k == PRECISION
    ensures Key(n, k) == b <==> IsKey(n, b)
  {
    Pow10Precision();
    WholeFits(n);
    NatOfFixed(n / P, k);
    NatOfFixed(n % P, k);
    if IsKey(n, b) {
      var whole, decs :|
        && AllDigits(whole) && AllDigits(decs) && |whole| == |decs| == PRECISION
        && NatOf(whole) * P + NatOf(decs) == n && b == whole + [DOT] + decs;
      KeyParts(whole, decs, n, k);
    }
  }

  lemma KeyParts(whole: Bytes, decs: Bytes, n: nat, k: nat)
    requires AllDigits(whole) && AllDigits(decs) && |whole| == |decs| == k == PRECISION
    requires NatOf(whole) * P + NatOf(decs) == n
    ensures whole == Fixed(n / P, k) && decs == Fixed(n % P, k)
  {
    NatOfDigits(decs);
    NatOfDigits(whole);
    Pow10Precision();
    Unjoin(n, NatOf(whole), NatOf(decs));
    FixedIsOnly(whole, n / P);
    FixedIsOnly(decs, n % P);
  }

  /** The bytes of d: "max", "--", or 18 digits on either side of the point, behind a minus for negative decimals. */
  ghost predicate AreBytesOf(d: int, b: Bytes) {
    || (d == P * P && b == MAX)
    || (d == 0 - P * P && b == [MINUS, MINUS])
    || (0 <= d < P * P && IsKey(d, b))
    || (0 - P * P < d < 0 && b != [] && b[0] == MINUS && IsKey(0 - d, b[1..]))
  }

  lemma Behind(b: Bytes, key: Bytes)
    ensures b == [MINUS] + key <==> b != [] && b[0] == MINUS && b[1..] == key
  {
    if b != [] && b[0] == MINUS && b[1..] == key {
      assert b == [b[0]] + b[1..];
    }
  }

  lemma SortableExactlyAt(d: int, b: Bytes, k: nat)
    requires k == PRECISION
    ensures Sortable(d) == Some(b) <==> AreBytesOf(d, b)
  {
    if Abs(d) <= MAX_SORTABLE {
      SortableIs(d, k);
    }
    if 0 <= d < MAX_SORTABLE {
      KeyIsOnly(d, b, k);
    }
    if 0 - MAX_SORTABLE < d < 0 {
      Behind(b, Key(0 - d, k));
      if b != [] {
        KeyIsOnly(0 - d, b[1..], k);
      }
    }
  }

  /** SortableDecBytes in full. */
  lemma SortableExactly(d: int, b: Bytes)
    ensures Sortable(d) == Some(b) <==> AreBytesOf(d, b)
  {
    SortableExactlyAt(d, b, PRECISION);
  }
}
