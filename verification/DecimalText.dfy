/** Printing and parsing of decimals. */
module DecimalText {
  import opened Basics
  import opened Sequences
  import opened DecimalArith

  const ZERO: Byte := 0x30
  const PLUS: Byte := 0x2b
  const MINUS: Byte := 0x2d
  const DOT: Byte := 0x2e
  const PRECISION: nat := 18

  predicate IsDigit(b: Byte) {
    0x30 <= b <= 0x39
  }

  predicate AllDigits(s: Bytes) {
    forall i :: 0 <= i < |s| ==> IsDigit(s[i])
  }

  function Pow10(k: nat): (r: nat)
    ensures r >= 1
  {
    if k == 0 then 1 else 10 * Pow10(k - 1)
  }

  lemma Pow10Precision()
    ensures Pow10(PRECISION) == P
  {
    assert Pow10(6) == 1_000_000;
    assert Pow10(12) == 1_000_000 * Pow10(6);
    assert Pow10(18) == 1_000_000 * Pow10(12);
  }

  // ----- digits -----

  function Digit(n: nat): Byte
    requires n < 10
  {
    0x30 + n
  }

  /** The number without leading zeros. */
  function Decimal(n: nat): (r: Bytes)
    ensures r != [] && AllDigits(r)
  {
    if n < 10 then [Digit(n)] else Decimal(n / 10) + [Digit(n % 10)]
  }

  /** The last k digits. */
  function Fixed(n: nat, k: nat): (r: Bytes)
    ensures |r| == k && AllDigits(r)
  {
    if k == 0 then [] else Fixed(n / 10, k - 1) + [Digit(n % 10)]
  }

  function Zeros(k: nat): (r: Bytes)
    ensures |r| == k && AllDigits(r) && forall i :: 0 <= i < k ==> r[i] == ZERO
  {
    if k == 0 then [] else Zeros(k - 1) + [ZERO]
  }

  function DigitValue(b: Byte): int {
    b as int - 0x30
  }

  function NatOf(s: Bytes): int {
    if s == [] then 0 else 10 * NatOf(s[..|s| - 1]) + DigitValue(s[|s| - 1])
  }

  lemma NatOfSnoc(s: Bytes, b: Byte)
    ensures NatOf(s + [b]) == 10 * NatOf(s) + DigitValue(b)
  {
    assert (s + [b])[..|s|] == s;
  }

  lemma {:induction false} NatOfDecimal(n: nat)
    ensures NatOf(Decimal(n)) == n
  {
    if n < 10 {
      assert Decimal(n)[..0] == [];
    } else {
      NatOfDecimal(n / 10);
      NatOfSnoc(Decimal(n / 10), Digit(n % 10));
    }
  }

  lemma {:induction false} NatOfFixed(n: nat, k: nat)
    requires n < Pow10(k)
    ensures NatOf(Fixed(n, k)) == n
  {
    if k > 0 {
      NatOfFixed(n / 10, k - 1);
      NatOfSnoc(Fixed(n / 10, k - 1), Digit(n % 10));
    }
  }

  lemma {:induction false} NatOfZeros(k: nat)
    ensures NatOf(Zeros(k)) == 0
  {
    if k > 0 {
      NatOfZeros(k - 1);
      NatOfSnoc(Zeros(k - 1), ZERO);
    }
  }

  lemma {:induction false} NatOfConcat(a: Bytes, b: Bytes)
    ensures NatOf(a + b) == NatOf(a) * Pow10(|b|) + NatOf(b)
    decreases |b|
  {
    if b == [] {
      assert a + b == a;
    } else {
      var init, last := b[..|b| - 1], b[|b| - 1];
      NatOfConcat(a, init);
      assert a + b == a + init + [last];
      NatOfSnoc(a + init, last);
      TenTimes(NatOf(a), Pow10(|init|));
    }
  }

  lemma TenTimes(x: int, p: int)
    ensures 10 * (x * p) == x * (10 * p)
  {
  }

  lemma {:induction false} NatOfDigits(s: Bytes)
    requires AllDigits(s)
    ensures 0 <= NatOf(s) < Pow10(|s|)
  {
    if s != [] {
      NatOfDigits(s[..|s| - 1]);
    }
  }

  // ----- where the point goes -----

  lemma {:induction false} DecimalLength(n: nat, k: nat)
    requires k >= 1
    ensures n < Pow10(k) <==> |Decimal(n)| <= k
  {
    if n < 10 {
      assert Pow10(k) == 10 * Pow10(k - 1);
    } else if k > 1 {
      DecimalLength(n / 10, k - 1);
    }
  }

  /** A number of fewer digits, filled up with zeros. */
  lemma {:induction false} Padding(n: nat, k: nat)
    requires n < Pow10(k) && k >= 1 && |Decimal(n)| <= k
    ensures Zeros(k - |Decimal(n)|) + Decimal(n) == Fixed(n, k)
  {
    if n >= 10 {
      DecimalLength(n / 10, k - 1);
      Padding(n / 10, k - 1);
      assert Zeros(k - |Decimal(n)|) + Decimal(n) ==
             Zeros(k - 1 - |Decimal(n / 10)|) + Decimal(n / 10) + [Digit(n % 10)];
    } else {
      FixedZero(k - 1);
      assert n / 10 == 0;
    }
  }

  lemma {:induction false} FixedZero(k: nat)
    ensures Fixed(0, k) == Zeros(k)
  {
    if k > 0 {
      FixedZero(k - 1);
    }
  }

  lemma TenthSplit(n: nat, q: nat)
    requires q > 0
    ensures n / (10 * q) == n / 10 / q && n % (10 * q) == 10 * (n / 10 % q) + n % 10
  {
    var m := n / 10;
    DivMod(m, q);
    assert m / q * (10 * q) == 10 * (m / q * q);
    QuotientIs(n, 10 * q, m / q);
    DivMod(n, 10 * q);
  }

  /** A longer number is the number in front of the last k digits, and these. */
  lemma {:induction false} DecimalSplit(n: nat, k: nat)
    requires n >= Pow10(k)
    ensures Decimal(n) == Decimal(n / Pow10(k)) + Fixed(n % Pow10(k), k)
  {
    if k == 0 {
      assert Decimal(n) + [] == Decimal(n);
    } else {
      TenthAtLeast(n, Pow10(k - 1));
      DecimalSplit(n / 10, k - 1);
      DecimalSnoc(n, k, n / 10 / Pow10(k - 1), n / 10 % Pow10(k - 1));
      TenthSplit(n, Pow10(k - 1));
    }
  }

  lemma TenthAtLeast(n: nat, q: nat)
    requires q >= 1 && n >= 10 * q
    ensures n >= 10 && n / 10 >= q
  {
  }

  lemma DecimalSnoc(n: nat, k: nat, front: nat, back: nat)
    requires k > 0 && n >= 10 && Decimal(n / 10) == Decimal(front) + Fixed(back, k - 1)
    ensures Decimal(n) == Decimal(front) + Fixed(10 * back + n % 10, k)
  {
    FixedSnoc(10 * back + n % 10, k, back, n % 10);
    Associate(Decimal(front), Fixed(back, k - 1), [Digit(n % 10)]);
  }

  lemma FixedSnoc(r: nat, k: nat, front: nat, last: nat)
    requires k > 0 && last < 10 && r == 10 * front + last
    ensures Fixed(r, k) == Fixed(front, k - 1) + [Digit(last)]
  {
    assert r / 10 == front && r % 10 == last;
  }

  // ----- printing -----

  /** The whole part, a point and 18 decimals. */
  function TextNat(n: nat): Bytes {
    Decimal(n / P) + [DOT] + Fixed(n % P, PRECISION)
  }

  function Text(d: int): Bytes {
    if d < 0 then [MINUS] + TextNat(-d) else TextNat(d)
  }

  lemma SmallText(n: nat)
    requires |Decimal(n)| <= PRECISION
    ensures TextNat(n) == [ZERO, DOT] + (Zeros(PRECISION - |Decimal(n)|) + Decimal(n))
  {
    Pow10Precision();
    SmallTextAt(n, PRECISION);
    assert n / P == 0 && n % P == n;
  }

  lemma SmallTextAt(n: nat, k: nat)
    requires |Decimal(n)| <= k
    ensures n < Pow10(k)
    ensures Decimal(0) + [DOT] + Fixed(n, k) == [ZERO, DOT] + (Zeros(k - |Decimal(n)|) + Decimal(n))
  {
    DecimalLength(n, k);
    Padding(n, k);
    assert Decimal(0) + [DOT] == [ZERO, DOT];
  }

  lemma LargeText(n: nat)
    requires |Decimal(n)| > PRECISION
    ensures var digits, place := Decimal(n), |Decimal(n)| - PRECISION;
            TextNat(n) == digits[..place] + [DOT] + digits[place..]
  {
    Pow10Precision();
    DecimalLength(n, PRECISION);
    DecimalSplit(n, PRECISION);
    Parts(Decimal(n / P), Fixed(n % P, PRECISION), Decimal(n));
  }

  lemma Parts(a: Bytes, b: Bytes, whole: Bytes)
    requires whole == a + b
    ensures whole[..|whole| - |b|] == a && whole[|whole| - |b|..] == b
  {
  }

  /** String for numbers of at most 18 digits: zeros in front. */
  method PurelyDecimal(bzInt: Bytes) returns (text: Bytes)
    requires |bzInt| <= PRECISION
    ensures text == [ZERO, DOT] + (Zeros(PRECISION - |bzInt|) + bzInt)
  {
    var bzStr := new Byte[PRECISION + 2](_ => 0);
    bzStr[0] := ZERO;
    bzStr[1] := DOT;
    var fill := PRECISION - |bzInt|;
    for i := 0 to fill
      invariant bzStr[0] == ZERO && bzStr[1] == DOT && forall j :: 2 <= j < i + 2 ==> bzStr[j] == ZERO
    {
      bzStr[i + 2] := ZERO;
    }
    forall j | 0 <= j < |bzInt| {
      bzStr[2 + fill + j] := bzInt[j];
    }
    text := bzStr[..];
    assert text == [ZERO, DOT] + (Zeros(fill) + bzInt);
  }

  /** String for longer numbers: the point goes in front of the last 18 digits. */
  method AroundPoint(bzInt: Bytes) returns (text: Bytes)
    requires |bzInt| > PRECISION
    ensures text == bzInt[..|bzInt| - PRECISION] + [DOT] + bzInt[|bzInt| - PRECISION..]
  {
    var bzStr := new Byte[|bzInt| + 1](_ => 0);
    var decPointPlace := |bzInt| - PRECISION;
    forall j | 0 <= j < decPointPlace {
      bzStr[j] := bzInt[j];
    }
    bzStr[decPointPlace] := DOT;
    forall j | decPointPlace <= j < |bzInt| {
      bzStr[j + 1] := bzInt[j];
    }
    text := bzStr[..];
    assert text == bzInt[..decPointPlace] + [DOT] + bzInt[decPointPlace..];
  }

  /** String: the digits are copied into a buffer around the point. */
  method String(d: int) returns (text: Bytes)
    ensures text == Text(d)
  {
    var isNeg := d < 0;
    text := StringOfNat(if isNeg then -d else d);
    if isNeg {
      text := [MINUS] + text;
    }
  }

  method StringOfNat(n: nat) returns (text: Bytes)
    ensures text == TextNat(n)
  {
    var bzInt := Decimal(n);
    if |bzInt| <= PRECISION {
      text := PurelyDecimal(bzInt);
      SmallText(n);
    } else {
      text := AroundPoint(bzInt);
      LargeText(n);
    }
  }

  // ----- what is printed, without division -----

  /** Digits without leading zeros. */
  predicate Plain(s: Bytes) {
    s != [] && AllDigits(s) && (|s| == 1 || s[0] != ZERO)
  }

  lemma CutTen(x: nat, d: nat)
    requires d < 10
    ensures (10 * x + d) / 10 == x && (10 * x + d) % 10 == d
  {
  }

  lemma LastDigit(s: Bytes, n: nat) returns (m: nat)
    requires s != [] && AllDigits(s) && NatOf(s) == n
    ensures m == n / 10 && NatOf(s[..|s| - 1]) == m && AllDigits(s[..|s| - 1])
    ensures s == s[..|s| - 1] + [Digit(n % 10)]
  {
    var init, last := s[..|s| - 1], s[|s| - 1];
    assert IsDigit(last);
    NatOfDigits(init);
    m := NatOf(init);
    CutTen(m, DigitValue(last));
  }

  /** Only one string of k digits is a number. */
  lemma {:induction false} FixedIsOnly(s: Bytes, n: nat)
    requires AllDigits(s) && NatOf(s) == n
    ensures s == Fixed(n, |s|)
  {
    if s != [] {
      var m := LastDigit(s, n);
      FixedIsOnly(s[..|s| - 1], m);
    }
  }

  lemma {:induction false} PlainIsPositive(s: Bytes, n: nat)
    requires Plain(s) && s != [ZERO] && NatOf(s) == n
    ensures n > 0 && (|s| > 1 ==> n >= 10)
  {
    var m := LastDigit(s, n);
    if |s| > 1 {
      PlainIsPositive(s[..|s| - 1], m);
    } else {
      assert NatOf(s[..0]) == 0;
    }
  }

  /** Only one string without leading zeros is a number. */
  lemma {:induction false} DecimalIsOnly(s: Bytes, n: nat)
    requires Plain(s) && NatOf(s) == n
    ensures s == Decimal(n)
  {
    var m := LastDigit(s, n);
    if |s| > 1 {
      PlainIsPositive(s, n);
      DecimalIsOnly(s[..|s| - 1], m);
    } else {
      assert NatOf(s[..0]) == 0;
    }
  }

  lemma {:induction false} DecimalIsPlain(n: nat)
    ensures Plain(Decimal(n))
    ensures n > 0 ==> Decimal(n)[0] != ZERO
  {
    if n >= 10 {
      DecimalIsPlain(n / 10);
    }
  }

  /** What String prints: a minus for a negative number, the whole part without leading zeros, a point, 18 digits. */
  ghost predicate Prints(d: int, text: Bytes) {
    exists whole, decs ::
      && Plain(whole) && AllDigits(decs) && |decs| == PRECISION
      && NatOf(whole) * P + NatOf(decs) == Abs(d)
      && text == (if d < 0 then [MINUS] else []) + (whole + [DOT] + decs)
  }

  lemma PartsOfNumber(whole: Bytes, decs: Bytes, n: nat, k: nat)
    requires Plain(whole) && AllDigits(decs) && |decs| == k == PRECISION && NatOf(whole) * P + NatOf(decs) == n
    ensures whole == Decimal(n / P) && decs == Fixed(n % P, k)
  {
    NatOfDigits(decs);
    NatOfDigits(whole);
    Pow10Precision();
    Unjoin(n, NatOf(whole), NatOf(decs));
    FixedIsOnly(decs, n % P);
    DecimalIsOnly(whole, n / P);
  }

  lemma Unjoin(n: nat, whole: nat, decs: nat)
    requires n == whole * P + decs && decs < P
    ensures n / P == whole && n % P == decs
  {
    QuotientIs(n, P, whole);
    DivMod(n, P);
  }

  lemma NumberOfParts(n: nat, k: nat)
    requires k == PRECISION
    ensures NatOf(Decimal(n / P)) * P + NatOf(Fixed(n % P, k)) == n
  {
    Pow10Precision();
    NatOfDecimal(n / P);
    NatOfFixed(n % P, k);
  }

  /** String in full. */
  lemma TextExactly(d: int, text: Bytes)
    ensures Text(d) == text <==> Prints(d, text)
  {
    var n := Abs(d);
    NumberOfParts(n, PRECISION);
    DecimalIsPlain(n / P);
    if Text(d) == text {
      var whole, decs := Decimal(n / P), Fixed(n % P, PRECISION);
      assert d >= 0 ==> [] + (whole + [DOT] + decs) == whole + [DOT] + decs;
    }
    if Prints(d, text) {
      var whole, decs :|
        && Plain(whole) && AllDigits(decs) && |decs| == PRECISION
        && NatOf(whole) * P + NatOf(decs) == Abs(d)
        && text == (if d < 0 then [MINUS] else []) + (whole + [DOT] + decs);
      PartsOfNumber(whole, decs, n, PRECISION);
      assert d >= 0 ==> [] + (whole + [DOT] + decs) == whole + [DOT] + decs;
    }
  }

  // ----- parsing -----

  /** strings.Split at the points. */
  function Split(s: Bytes): (r: seq<Bytes>)
    ensures |r| >= 1
  {
    if s == [] then [[]]
    else if s[0] == DOT then [[]] + Split(s[1..])
    else
      var rest := Split(s[1..]);
      [[s[0]] + rest[0]] + rest[1..]
  }

  /** big.Int.SetString in base 10: an optional sign and at least one digit. */
  function SetString(s: Bytes): Option<int> {
    var signed := s != [] && (s[0] == PLUS || s[0] == MINUS);
    var digits := if signed then s[1..] else s;
    if digits == [] || !AllDigits(digits) then None
    else Some(if signed && s[0] == MINUS then 0 - NatOf(digits) else NatOf(digits))
  }

  /** NewDecFromStr. */
  function Parse(s: Bytes): Result<int> {
    if s == [] then Err("decimal string cannot be empty")
    else if s[0] == MINUS then ParseRest(true, s[1..])
    else ParseRest(false, s)
  }

  /** NewDecFromStr after a minus is taken off. */
  function ParseRest(neg: bool, str: Bytes): Result<int> {
    if str == [] then Err("decimal string cannot be empty")
    else
      var strs := Split(str);
      if |strs| > 2 then Err("invalid decimal string")
      else if |strs| == 2 && (strs[1] == [] || strs[0] == []) then Err("invalid decimal length")
      else ParseParts(neg, strs[0], if |strs| == 2 then strs[1] else [])
  }

  /** NewDecFromStr once the string is cut at the point. */
  function ParseParts(neg: bool, front: Bytes, decs: Bytes): Result<int> {
    if |decs| > PRECISION then Err("exceeds max precision")
    else
      match SetString(front + decs + Zeros(PRECISION - |decs|))
      case None => Err("failed to set decimal string with base 10")
      case Some(combined) =>
        var d := if neg then 0 - combined else combined;
        if InRange(d) then Ok(d) else Err("decimal out of range")
  }

  predicate NoDots(s: Bytes) {
    forall i :: 0 <= i < |s| ==> s[i] != DOT
  }

  lemma {:induction false} SplitNone(s: Bytes)
    requires NoDots(s)
    ensures Split(s) == [s]
  {
    if s != [] {
      SplitNone(s[1..]);
      assert s == [s[0]] + s[1..];
    }
  }

  lemma {:induction false} SplitOnce(a: Bytes, b: Bytes)
    requires NoDots(a) && NoDots(b)
    ensures Split(a + [DOT] + b) == [a, b]
  {
    var s := a + [DOT] + b;
    if a == [] {
      assert s[0] == DOT && s[1..] == b;
      SplitNone(b);
    } else {
      assert s[1..] == a[1..] + [DOT] + b;
      SplitOnce(a[1..], b);
      assert a == [a[0]] + a[1..];
    }
  }

  /** One part is the whole string; two parts make it up with a point between. */
  lemma {:induction false} SplitJoin(s: Bytes)
    ensures |Split(s)| == 1 ==> s == Split(s)[0]
    ensures |Split(s)| == 2 ==> s == Split(s)[0] + [DOT] + Split(s)[1]
  {
    if s != [] {
      var rest := s[1..];
      SplitJoin(rest);
      assert s == [s[0]] + rest;
      if s[0] == DOT {
        assert Split(s)[1..] == Split(rest);
      }
    }
  }

  // ----- what the accepted strings are -----

  /** A minus that negates, a sign of the number, its digits, and its decimals if there is a point. */
  datatype Literal = Literal(minus: bool, sign: Bytes, whole: Bytes, point: bool, decs: Bytes)

  /** The signs and lengths that are accepted.  A sign may stand for the whole part. */
  predicate WellFormed(l: Literal) {
    && AllDigits(l.whole) && AllDigits(l.decs)
    && (l.sign == [] || l.sign == [PLUS] || (l.minus && l.sign == [MINUS]))
    && l.sign + l.whole != []
    && (if l.point then 1 <= |l.decs| <= PRECISION else l.decs == [])
  }

  function Front(l: Literal): Bytes {
    l.sign + l.whole
  }

  function Written(l: Literal): Bytes {
    (if l.minus then [MINUS] else []) + (if l.point then Front(l) + [DOT] + l.decs else Front(l))
  }

  /** The number that is written, in last-place units. */
  function Magnitude(l: Literal): int
    requires |l.decs| <= PRECISION
  {
    NatOf(l.whole) * P + NatOf(l.decs) * Pow10(PRECISION - |l.decs|)
  }

  function Number(l: Literal): int
    requires |l.decs| <= PRECISION
  {
    if l.minus == (l.sign == [MINUS]) then Magnitude(l) else 0 - Magnitude(l)
  }

  /** The number that is set, before the minus in front is looked at. */
  function Combination(l: Literal): int
    requires |l.decs| <= PRECISION
  {
    if l.sign == [MINUS] then 0 - Magnitude(l) else Magnitude(l)
  }

  lemma NumberIs(l: Literal)
    requires |l.decs| <= PRECISION
    ensures Number(l) == if l.minus then 0 - Combination(l) else Combination(l)
  {
  }

  lemma {:induction false} Pow10Split(a: nat, b: nat)
    ensures Pow10(a + b) == Pow10(a) * Pow10(b)
  {
    if a > 0 {
      Pow10Split(a - 1, b);
      assert 10 * (Pow10(a - 1) * Pow10(b)) == 10 * Pow10(a - 1) * Pow10(b);
    }
  }

  /** All digits together, with zeros up to 18 decimals, are the number in last-place units. */
  lemma Combined(whole: Bytes, decs: Bytes, k: nat)
    requires |decs| <= k
    ensures NatOf(whole + decs + Zeros(k - |decs|)) == NatOf(whole) * Pow10(k) + NatOf(decs) * Pow10(k - |decs|)
  {
    var z := k - |decs|;
    NatOfConcat(whole + decs, Zeros(z));
    NatOfZeros(z);
    NatOfConcat(whole, decs);
    Pow10Split(|decs|, z);
    Distribute(NatOf(whole), Pow10(|decs|), NatOf(decs), Pow10(z), Pow10(k), NatOf(whole + decs));
  }

  lemma Distribute(w: int, p: int, d: int, z: int, k: int, all: int)
    requires k == p * z && all == w * p + d
    ensures all * z == w * k + d * z
  {
    assert w * p * z == w * (p * z);
  }

  lemma DigitsConcat(a: Bytes, b: Bytes, c: Bytes)
    ensures AllDigits(a + b + c) <==> AllDigits(a) && AllDigits(b) && AllDigits(c)
  {
    var s := a + b + c;
    if AllDigits(s) {
      forall i | 0 <= i < |a| ensures IsDigit(a[i]) { assert s[i] == a[i]; }
      forall i | 0 <= i < |b| ensures IsDigit(b[i]) { assert s[|a| + i] == b[i]; }
      forall i | 0 <= i < |c| ensures IsDigit(c[i]) { assert s[|a| + |b| + i] == c[i]; }
    }
  }

  /** What is set from a sign, digits, and zeros behind. */
  lemma SetSigned(sign: Bytes, digits: Bytes)
    requires sign == [] || sign == [PLUS] || sign == [MINUS]
    requires digits != [] && AllDigits(digits)
    ensures SetString(sign + digits) == Some(if sign == [MINUS] then 0 - NatOf(digits) else NatOf(digits))
  {
    var s := sign + digits;
    if sign == [] {
      assert s == digits && IsDigit(s[0]);
    } else {
      assert s[1..] == digits;
    }
  }

  function Ranged(d: int): Result<int> {
    if InRange(d) then Ok(d) else Err("decimal out of range")
  }

  lemma DigitsOfLiteral(l: Literal, k: nat)
    requires WellFormed(l) && k == PRECISION
    ensures AllDigits(l.whole + l.decs + Zeros(k - |l.decs|)) && l.whole + l.decs + Zeros(k - |l.decs|) != []
  {
    DigitsConcat(l.whole, l.decs, Zeros(k - |l.decs|));
  }

  lemma MagnitudeIs(l: Literal, k: nat)
    requires |l.decs| <= k == PRECISION
    ensures NatOf(l.whole + l.decs + Zeros(k - |l.decs|)) == Magnitude(l)
  {
    Combined(l.whole, l.decs, k);
    Pow10Precision();
  }

  lemma PartsOfLiteral(l: Literal, k: nat)
    requires WellFormed(l) && k == PRECISION
    ensures SetString(Front(l) + l.decs + Zeros(k - |l.decs|)) == Some(Combination(l))
  {
    var z := Zeros(k - |l.decs|);
    var digits := l.whole + l.decs + z;
    DigitsOfLiteral(l, k);
    MagnitudeIs(l, k);
    calc {
      SetString(Front(l) + l.decs + z);
      { SignFirst(l.sign, l.whole, l.decs, z); }
      SetString(l.sign + digits);
      { SetSigned(l.sign, digits); }
      Some(if l.sign == [MINUS] then 0 - NatOf(digits) else NatOf(digits));
    }
  }

  lemma SignFirst(a: Bytes, b: Bytes, c: Bytes, d: Bytes)
    ensures a + b + c + d == a + (b + c + d)
  {
  }

  lemma FrontHasNoDots(l: Literal)
    requires WellFormed(l)
    ensures NoDots(Front(l)) && NoDots(l.decs)
    ensures !l.minus ==> Front(l)[0] != MINUS
  {
    forall i | 0 <= i < |Front(l)| ensures Front(l)[i] != DOT {
      if i >= |l.sign| {
        assert Front(l)[i] == l.whole[i - |l.sign|];
        assert IsDigit(l.whole[i - |l.sign|]);
      }
    }
    if l.sign == [] {
      assert Front(l) == l.whole && IsDigit(l.whole[0]);
    }
  }

  lemma RestIsParts(neg: bool, front: Bytes, point: bool, decs: Bytes)
    requires NoDots(front) && NoDots(decs) && front != [] && (if point then decs != [] else decs == [])
    ensures ParseRest(neg, if point then front + [DOT] + decs else front) == ParseParts(neg, front, decs)
  {
    if point {
      SplitOnce(front, decs);
    } else {
      SplitNone(front);
    }
  }

  lemma RestOfLiteral(l: Literal)
    requires WellFormed(l)
    ensures ParseRest(l.minus, if l.point then Front(l) + [DOT] + l.decs else Front(l)) == Ranged(Number(l))
  {
    FrontHasNoDots(l);
    PartsParsed(l);
    RestIsParts(l.minus, Front(l), l.point, l.decs);
  }

  lemma PartsParsed(l: Literal)
    requires WellFormed(l)
    ensures ParseParts(l.minus, Front(l), l.decs) == Ranged(Number(l))
  {
    PartsOfLiteral(l, PRECISION);
    PartsAre(l.minus, Front(l), l.decs, Combination(l));
    NumberIs(l);
  }

  lemma PartsAre(neg: bool, front: Bytes, decs: Bytes, combined: int)
    requires |decs| <= PRECISION && SetString(front + decs + Zeros(PRECISION - |decs|)) == Some(combined)
    ensures ParseParts(neg, front, decs) == Ranged(if neg then 0 - combined else combined)
  {
  }

  /** A well-formed literal is parsed to its number. */
  lemma ParseWritten(l: Literal)
    requires WellFormed(l)
    ensures Parse(Written(l)) == Ranged(Number(l))
  {
    var body := if l.point then Front(l) + [DOT] + l.decs else Front(l);
    FrontHasNoDots(l);
    RestOfLiteral(l);
    assert body[0] == Front(l)[0];
    if l.minus {
      assert Written(l)[0] == MINUS && Written(l)[1..] == body;
    } else {
      assert Written(l) == body;
    }
  }

  lemma LiteralOfParts(neg: bool, front: Bytes, point: bool, decs: Bytes) returns (l: Literal)
    requires ParseParts(neg, front, decs).Ok? && front != [] && (!neg ==> front[0] != MINUS)
    requires if point then decs != [] else decs == []
    ensures WellFormed(l) && l.minus == neg && Front(l) == front && l.point == point && l.decs == decs
  {
    var z := Zeros(PRECISION - |decs|);
    DigitsOfParts(front, decs, z);
    if front[0] == PLUS || front[0] == MINUS {
      l := Literal(neg, [front[0]], front[1..], point, decs);
    } else {
      l := Literal(neg, [], front, point, decs);
    }
  }

  lemma DigitsOfParts(front: Bytes, decs: Bytes, z: Bytes)
    requires front != [] && SetString(front + decs + z).Some?
    ensures AllDigits(decs)
    ensures AllDigits(if front[0] == PLUS || front[0] == MINUS then front[1..] else front)
  {
    var all := front + decs + z;
    assert all[0] == front[0];
    if front[0] == PLUS || front[0] == MINUS {
      assert all[1..] == front[1..] + decs + z;
      DigitsConcat(front[1..], decs, z);
    } else {
      DigitsConcat(front, decs, z);
    }
  }

  /** Every accepted string is a well-formed literal. */
  lemma ParseAccepts(s: Bytes) returns (l: Literal)
    requires Parse(s).Ok?
    ensures WellFormed(l) && Written(l) == s
  {
    var neg := s[0] == MINUS;
    var str := if neg then s[1..] else s;
    var strs := Split(str);
    SplitJoin(str);
    if |strs| == 2 {
      assert str[0] == strs[0][0];
      l := LiteralOfParts(neg, strs[0], true, strs[1]);
    } else {
      l := LiteralOfParts(neg, strs[0], false, []);
    }
    assert s == (if neg then [MINUS] else []) + str;
  }

  /** The printed text as a literal. */
  function Printed(d: int): Literal {
    var n := Abs(d);
    Literal(d < 0, [], Decimal(n / P), true, Fixed(n % P, PRECISION))
  }

  lemma PrintedIsText(d: int)
    ensures WellFormed(Printed(d)) && Written(Printed(d)) == Text(d) && Number(Printed(d)) == d
  {
    var n := Abs(d);
    assert Front(Printed(d)) == Decimal(n / P);
    PrintedNumber(n, PRECISION);
  }

  lemma PrintedNumber(n: nat, k: nat)
    requires k == PRECISION
    ensures NatOf(Decimal(n / P)) * P + NatOf(Fixed(n % P, k)) * Pow10(k - k) == n
  {
    Pow10Precision();
    NatOfDecimal(n / P);
    NatOfFixed(n % P, k);
  }

  /** Parsing what is printed gives the decimal back. */
  lemma ParseText(d: int)
    requires InRange(d)
    ensures Parse(Text(d)) == Ok(d)
  {
    PrintedIsText(d);
    ParseWritten(Printed(d));
  }

  /** An accepted string and the text printed for what it is parsed to write the same number. */
  lemma TextIsCanonical(s: Bytes) returns (l: Literal)
    requires Parse(s).Ok?
    ensures WellFormed(l) && Written(l) == s && Number(l) == Parse(s).value
    ensures var printed := Printed(Parse(s).value);
            WellFormed(printed) && Written(printed) == Text(Parse(s).value) && Number(printed) == Number(l)
  {
    l := ParseAccepts(s);
    ParseWritten(l);
    PrintedIsText(Parse(s).value);
  }
}
