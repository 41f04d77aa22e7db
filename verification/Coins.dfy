/** Sets of coins: their merge loops, and the algebra they promise. */
module Coins {
  import opened Basics
  import opened Sequences
  import opened ByteOrder

  datatype Coin = Coin(denom: Bytes, amount: int)

  // ----- denominations -----

  predicate IsLetter(b: Byte) {
    0x41 <= b <= 0x5a || 0x61 <= b <= 0x7a
  }

  /** Letters, digits, slash and minus. */
  predicate IsDenomChar(b: Byte) {
    IsLetter(b) || 0x30 <= b <= 0x39 || b == 0x2f || b == 0x2d
  }

  /** The default pattern: a letter and 2 to 127 more characters. */
  predicate ValidDenom(denom: Bytes) {
    3 <= |denom| <= 128 && IsLetter(denom[0]) && forall i :: 1 <= i < |denom| ==> IsDenomChar(denom[i])
  }

  /** The pattern as it is written: a letter, and two to 127 letters, digits, slashes and minuses. */
  lemma DenomPattern(denom: Bytes)
    ensures ValidDenom(denom) <==>
            exists first: Byte, rest: Bytes ::
              denom == [first] + rest && IsLetter(first) && 2 <= |rest| <= 127 && AllDenomChars(rest)
    ensures forall b: Byte :: IsLetter(b) <==>
              'a' as int <= b <= 'z' as int || 'A' as int <= b <= 'Z' as int
    ensures forall b: Byte :: IsDenomChar(b) <==>
              IsLetter(b) || '0' as int <= b <= '9' as int || b == '/' as int || b == '-' as int
  {
    if ValidDenom(denom) {
      assert denom == [denom[0]] + denom[1..] && AllDenomChars(denom[1..]);
    }
    forall first: Byte, rest: Bytes
      | denom == [first] + rest && IsLetter(first) && 2 <= |rest| <= 127 && AllDenomChars(rest)
      ensures ValidDenom(denom)
    {
      forall i | 1 <= i < |denom| ensures IsDenomChar(denom[i]) { assert denom[i] == rest[i - 1]; }
    }
  }

  predicate AllDenomChars(s: Bytes) {
    forall i :: 0 <= i < |s| ==> IsDenomChar(s[i])
  }

  // ----- what a list of coins amounts to -----

  /** AmountOfNoDenomValidation: the first coin of the denomination. */
  function Amount(coins: seq<Coin>, denom: Bytes): int {
    if coins == [] then 0 else if coins[0].denom == denom then coins[0].amount else Amount(coins[1..], denom)
  }

  /** All coins of the denomination together. */
  function Total(coins: seq<Coin>, denom: Bytes): int {
    if coins == [] then 0
    else (if coins[0].denom == denom then coins[0].amount else 0) + Total(coins[1..], denom)
  }

  predicate AllAbove(coins: seq<Coin>, denom: Bytes) {
    forall i :: 0 <= i < |coins| ==> Less(denom, coins[i].denom)
  }

  /** In ascending order, each denomination once. */
  predicate Strict(coins: seq<Coin>) {
    coins == [] || (AllAbove(coins[1..], coins[0].denom) && Strict(coins[1..]))
  }

  /** In ascending order; the test of isSorted lets a denomination occur again. */
  predicate Sorted(coins: seq<Coin>) {
    forall i :: 0 < i < |coins| ==> !Less(coins[i].denom, coins[i - 1].denom)
  }

  predicate NoZeros(coins: seq<Coin>) {
    forall i :: 0 <= i < |coins| ==> coins[i].amount != 0
  }

  predicate AllPositive(coins: seq<Coin>) {
    forall i :: 0 <= i < |coins| ==> coins[i].amount > 0
  }

  predicate AllDenomsValid(coins: seq<Coin>) {
    forall i :: 0 <= i < |coins| ==> ValidDenom(coins[i].denom)
  }

  predicate Valid(coins: seq<Coin>) {
    Strict(coins) && AllPositive(coins) && AllDenomsValid(coins)
  }

  lemma {:induction false} NoneBelow(coins: seq<Coin>, denom: Bytes)
    requires AllAbove(coins, denom)
    ensures Total(coins, denom) == 0 == Amount(coins, denom)
  {
    if coins != [] {
      LessIrreflexive(denom);
      assert Less(denom, coins[0].denom);
      NoneBelow(coins[1..], denom);
    }
  }

  lemma AboveTrans(coins: seq<Coin>, low: Bytes, denom: Bytes)
    requires Less(low, denom) && AllAbove(coins, denom)
    ensures AllAbove(coins, low)
  {
    forall i | 0 <= i < |coins| ensures Less(low, coins[i].denom) {
      LessTransitive(low, denom, coins[i].denom);
    }
  }

  lemma {:induction false} AmountIsTotal(coins: seq<Coin>, denom: Bytes)
    requires Strict(coins)
    ensures Amount(coins, denom) == Total(coins, denom)
  {
    if coins != [] {
      if coins[0].denom == denom {
        NoneBelow(coins[1..], denom);
      }
      AmountIsTotal(coins[1..], denom);
    }
  }

  /** A set without zeros is determined by its totals. */
  lemma {:induction false} SameTotals(a: seq<Coin>, b: seq<Coin>)
    requires Strict(a) && NoZeros(a) && Strict(b) && NoZeros(b)
    requires forall denom: Bytes :: Total(a, denom) == Total(b, denom)
    ensures a == b
    decreases |a|
  {
    if a != [] {
      NoneBelow(a[1..], a[0].denom);
      assert Total(a, a[0].denom) == a[0].amount;
    }
    if b != [] {
      NoneBelow(b[1..], b[0].denom);
      assert Total(b, b[0].denom) == b[0].amount;
    }
    if a != [] && b != [] {
      var da, db := a[0].denom, b[0].denom;
      LessTotal(da, db);
      if Less(da, db) {
        AboveTrans(b[1..], da, db);
        NoneBelow(b[1..], da);
      } else if Less(db, da) {
        AboveTrans(a[1..], db, da);
        NoneBelow(a[1..], db);
      }
      forall denom: Bytes ensures Total(a[1..], denom) == Total(b[1..], denom) {
        assert Total(a, denom) == Total(b, denom);
      }
      SameTotals(a[1..], b[1..]);
      assert a == [a[0]] + a[1..] && b == [b[0]] + b[1..];
    }
  }

  // ----- validation -----

  lemma {:induction false} StrictSnoc(coins: seq<Coin>, last: Coin)
    ensures Strict(coins + [last]) <==>
            Strict(coins) && forall i :: 0 <= i < |coins| ==> Less(coins[i].denom, last.denom)
  {
    if coins != [] {
      StrictSnoc(coins[1..], last);
      assert (coins + [last])[1..] == coins[1..] + [last];
      assert AllAbove(coins[1..] + [last], coins[0].denom) <==>
             AllAbove(coins[1..], coins[0].denom) && Less(coins[0].denom, last.denom) by {
        assert (coins[1..] + [last])[|coins| - 1] == last;
        assert forall i :: 0 <= i < |coins| - 1 ==> (coins[1..] + [last])[i] == coins[1..][i];
      }
      assert forall i :: 1 <= i < |coins| ==> coins[i] == coins[1..][i - 1];
    }
  }

  /** The last of an ascending set is above all others, so comparing with it alone is enough. */
  lemma StrictNext(coins: seq<Coin>, next: Coin)
    requires coins != [] && Strict(coins)
    ensures Strict(coins + [next]) <==> Less(coins[|coins| - 1].denom, next.denom)
  {
    var last := coins[|coins| - 1];
    assert coins == coins[..|coins| - 1] + [last];
    StrictSnoc(coins[..|coins| - 1], last);
    StrictSnoc(coins, next);
    if Less(last.denom, next.denom) {
      forall i | 0 <= i < |coins| ensures Less(coins[i].denom, next.denom) {
        if i < |coins| - 1 {
          assert coins[..|coins| - 1][i] == coins[i];
          LessTransitive(coins[i].denom, last.denom, next.denom);
        }
      }
    }
  }

  /** Once out of order, always out of order. */
  lemma {:induction false} StrictPrefix(coins: seq<Coin>, n: nat)
    requires n <= |coins| && Strict(coins)
    ensures Strict(coins[..n])
    decreases |coins| - n
  {
    if n == |coins| {
      assert coins[..n] == coins;
    } else {
      StrictPrefix(coins, n + 1);
      assert coins[..n + 1] == coins[..n] + [coins[n]];
      StrictSnoc(coins[..n], coins[n]);
    }
  }

  ghost predicate Occurs(denom: Bytes, coins: seq<Coin>) {
    exists i :: 0 <= i < |coins| && coins[i].denom == denom
  }

  /** The denominations are those that occur. */
  ghost predicate SeenIn(denoms: set<Bytes>, coins: seq<Coin>) {
    forall denom: Bytes :: denom in denoms <==> Occurs(denom, coins)
  }

  lemma SeenMore(coins: seq<Coin>, next: Coin)
    ensures forall denom: Bytes :: Occurs(denom, coins + [next]) <==> Occurs(denom, coins) || denom == next.denom
  {
    var all := coins + [next];
    forall denom: Bytes ensures Occurs(denom, all) <==> Occurs(denom, coins) || denom == next.denom {
      if Occurs(denom, coins) {
        var i :| 0 <= i < |coins| && coins[i].denom == denom;
        assert all[i].denom == denom;
      }
      assert all[|coins|] == next;
    }
  }

  lemma SeenBefore(coins: seq<Coin>, next: Coin)
    requires Occurs(next.denom, coins)
    ensures !Strict(coins + [next])
  {
    StrictSnoc(coins, next);
    LessIrreflexive(next.denom);
  }

  /** Validate: the loop compares each coin with the one before it. */
  method Validate(coins: seq<Coin>) returns (ok: bool)
    ensures ok == Valid(coins)
  {
    if |coins| == 0 {
      return true;
    }
    if !ValidDenom(coins[0].denom) || coins[0].amount <= 0 {
      return false;
    }
    var lowDenom := coins[0].denom;
    var seenDenoms := {lowDenom};
    assert coins[..1] == [coins[0]];
    for n := 1 to |coins|
      invariant Valid(coins[..n]) && lowDenom == coins[n - 1].denom
      invariant SeenIn(seenDenoms, coins[..n])
    {
      var coin := coins[n];
      assert coins[..n + 1] == coins[..n] + [coin];
      StrictNext(coins[..n], coin);
      if coin.denom in seenDenoms {
        SeenBefore(coins[..n], coin);
        StrictLater(coins, n + 1);
        return false;
      }
      if !ValidDenom(coin.denom) {
        return false;
      }
      LessTotal(lowDenom, coin.denom);
      if !Less(lowDenom, coin.denom) {
        StrictLater(coins, n + 1);
        return false;
      }
      if coin.amount <= 0 {
        return false;
      }
      lowDenom := coin.denom;
      seenDenoms := seenDenoms + {coin.denom};
      SeenMore(coins[..n], coin);
    }
    assert coins[..|coins|] == coins;
    return true;
  }

  lemma StrictLater(coins: seq<Coin>, n: nat)
    requires n <= |coins| && !Strict(coins[..n])
    ensures !Strict(coins)
  {
    if Strict(coins) {
      StrictPrefix(coins, n);
    }
  }

  method IsSorted(coins: seq<Coin>) returns (ok: bool)
    ensures ok == Sorted(coins)
  {
    var i := 1;
    while i < |coins|
      invariant 1 <= i && forall j :: 0 < j < i && j < |coins| ==> !Less(coins[j].denom, coins[j - 1].denom)
    {
      if Less(coins[i].denom, coins[i - 1].denom) {
        return false;
      }
      i := i + 1;
    }
    return true;
  }

  lemma StrictIsSorted(coins: seq<Coin>)
    requires Strict(coins)
    ensures Sorted(coins)
  {
    forall i | 0 < i < |coins| ensures !Less(coins[i].denom, coins[i - 1].denom) {
      StrictPrefix(coins, i + 1);
      assert coins[..i + 1] == coins[..i] + [coins[i]];
      StrictSnoc(coins[..i], coins[i]);
      assert coins[..i][i - 1] == coins[i - 1];
      LessTotal(coins[i - 1].denom, coins[i].denom);
    }
  }

  // ----- removing zeros -----

  function OneUnlessZero(coin: Coin): seq<Coin> {
    if coin.amount == 0 then [] else [coin]
  }

  function WithoutZeros(coins: seq<Coin>): seq<Coin> {
    if coins == [] then [] else OneUnlessZero(coins[0]) + WithoutZeros(coins[1..])
  }

  /** Each coin for itself, in order. */
  lemma {:induction false} WithoutZerosConcat(a: seq<Coin>, b: seq<Coin>)
    ensures WithoutZeros(a + b) == WithoutZeros(a) + WithoutZeros(b)
  {
    if a == [] {
      assert a + b == b;
    } else {
      assert (a + b)[1..] == a[1..] + b;
      WithoutZerosConcat(a[1..], b);
      Associate(OneUnlessZero(a[0]), WithoutZeros(a[1..]), WithoutZeros(b));
    }
  }

  lemma WithoutZerosOne(coin: Coin)
    ensures WithoutZeros([coin]) == if coin.amount == 0 then [] else [coin]
  {
    assert [coin][1..] == [];
  }

  lemma {:induction false} WithoutZerosOf(coins: seq<Coin>)
    requires NoZeros(coins)
    ensures WithoutZeros(coins) == coins
  {
    if coins != [] {
      WithoutZerosOf(coins[1..]);
      assert coins == [coins[0]] + coins[1..];
    }
  }

  /** removeZeroCoins: a first loop that may return its argument, and a second that filters it. */
  method RemoveZeroCoins(coins: seq<Coin>) returns (result: seq<Coin>)
    ensures result == WithoutZeros(coins)
  {
    var i := 0;
    while i < |coins|
      invariant 0 <= i <= |coins| && NoZeros(coins[..i]) && (coins != [] ==> i < |coins|)
    {
      if coins[i].amount == 0 {
        break;
      } else if i == |coins| - 1 {
        assert NoZeros(coins);
        WithoutZerosOf(coins);
        return coins;
      }
      i := i + 1;
    }
    result := [];
    for n := 0 to |coins|
      invariant result + WithoutZeros(coins[n..]) == WithoutZeros(coins)
    {
      assert coins[n..][0] == coins[n] && coins[n..][1..] == coins[n + 1..];
      ghost var before := result;
      if coins[n].amount != 0 {
        result := result + [coins[n]];
      }
      assert result == before + OneUnlessZero(coins[n]);
      Associate(before, OneUnlessZero(coins[n]), WithoutZeros(coins[n + 1..]));
    }
    assert coins[|coins|..] == [] && result + [] == result;
  }
}
