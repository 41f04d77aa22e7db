/** Addition and subtraction of coin sets: a merge loop over two ascending lists. */
module CoinMerge {
  import opened Basics
  import opened Sequences
  import opened ByteOrder
  import opened Coins

  // ----- small facts -----

  lemma {:induction false} TotalConcat(a: seq<Coin>, b: seq<Coin>, denom: Bytes)
    ensures Total(a + b, denom) == Total(a, denom) + Total(b, denom)
  {
    if a == [] {
      assert a + b == b;
    } else {
      assert (a + b)[1..] == a[1..] + b;
      TotalConcat(a[1..], b, denom);
    }
  }

  lemma TotalOne(coin: Coin, denom: Bytes)
    ensures Total(OneUnlessZero(coin), denom) == if coin.denom == denom then coin.amount else 0
  {
  }

  /** A coin, unless it is zero, in front of coins of greater denominations. */
  lemma PutFirst(coin: Coin, rest: seq<Coin>)
    requires Strict(rest) && AllAbove(rest, coin.denom)
    ensures Strict(OneUnlessZero(coin) + rest)
    ensures NoZeros(rest) ==> NoZeros(OneUnlessZero(coin) + rest)
    ensures AllDenomsValid(rest) && ValidDenom(coin.denom) ==> AllDenomsValid(OneUnlessZero(coin) + rest)
    ensures forall low: Bytes :: Less(low, coin.denom) ==> AllAbove(OneUnlessZero(coin) + rest, low)
  {
    var all := OneUnlessZero(coin) + rest;
    if coin.amount == 0 {
      assert all == rest;
    } else {
      assert all[0] == coin && all[1..] == rest;
    }
    forall low: Bytes | Less(low, coin.denom) ensures AllAbove(all, low) {
      AboveTrans(rest, low, coin.denom);
    }
  }

  /** Everything in an ascending set is above what its first coin is above. */
  lemma FirstIsLeast(coins: seq<Coin>, low: Bytes)
    requires Strict(coins) && coins != [] && Less(low, coins[0].denom)
    ensures AllAbove(coins, low)
  {
    AboveTrans(coins[1..], low, coins[0].denom);
  }

  lemma {:induction false} FilterKeeps(coins: seq<Coin>)
    ensures NoZeros(WithoutZeros(coins))
    ensures forall denom: Bytes :: Total(WithoutZeros(coins), denom) == Total(coins, denom)
    ensures forall low: Bytes :: AllAbove(coins, low) ==> AllAbove(WithoutZeros(coins), low)
    ensures Strict(coins) ==> Strict(WithoutZeros(coins))
  {
    if coins != [] {
      var rest := WithoutZeros(coins[1..]);
      FilterKeeps(coins[1..]);
      forall denom: Bytes ensures Total(WithoutZeros(coins), denom) == Total(coins, denom) {
        TotalConcat(OneUnlessZero(coins[0]), rest, denom);
        TotalOne(coins[0], denom);
      }
      forall low: Bytes | AllAbove(coins, low) ensures AllAbove(WithoutZeros(coins), low) {
        assert AllAbove(coins[1..], low);
        assert Less(low, coins[0].denom);
      }
      if Strict(coins) {
        PutFirst(coins[0], rest);
      }
    }
  }

  // ----- addition -----

  /** What safeAdd computes on sorted lists. */
  function Sum(a: seq<Coin>, b: seq<Coin>): seq<Coin>
    decreases |a| + |b|
  {
    if a == [] then WithoutZeros(b)
    else if b == [] then WithoutZeros(a)
    else if Less(a[0].denom, b[0].denom) then OneUnlessZero(a[0]) + Sum(a[1..], b)
    else if a[0].denom == b[0].denom then
      OneUnlessZero(Coin(a[0].denom, a[0].amount + b[0].amount)) + Sum(a[1..], b[1..])
    else OneUnlessZero(b[0]) + Sum(a, b[1..])
  }

  /** safeAdd; None stands for its panic. */
  method SafeAdd(coins: seq<Coin>, coinsB: seq<Coin>) returns (r: Option<seq<Coin>>)
    ensures r == if Sorted(coins) && Sorted(coinsB) then Some(Sum(coins, coinsB)) else None
  {
    var sorted := IsSorted(coins);
    var sortedB := IsSorted(coinsB);
    if !sorted || !sortedB {
      return None;
    }
    var sum: seq<Coin> := [];
    var indexA, indexB := 0, 0;
    while indexA < |coins| && indexB < |coinsB|
      invariant 0 <= indexA <= |coins| && 0 <= indexB <= |coinsB|
      invariant sum + Sum(coins[indexA..], coinsB[indexB..]) == Sum(coins, coinsB)
      decreases |coins| - indexA + |coinsB| - indexB
    {
      var coinA, coinB := coins[indexA], coinsB[indexB];
      ghost var before := sum;
      SumStep(coins[indexA..], coinsB[indexB..]);
      assert coins[indexA..][1..] == coins[indexA + 1..] && coinsB[indexB..][1..] == coinsB[indexB + 1..];
      LessTotal(coinA.denom, coinB.denom);
      var next: Coin;
      if Less(coinA.denom, coinB.denom) {
        next := coinA;
        indexA := indexA + 1;
      } else if coinA.denom == coinB.denom {
        next := Coin(coinA.denom, coinA.amount + coinB.amount);
        indexA, indexB := indexA + 1, indexB + 1;
      } else {
        next := coinB;
        indexB := indexB + 1;
      }
      sum := if next.amount != 0 then sum + [next] else sum;
      assert sum == before + OneUnlessZero(next);
      Associate(before, OneUnlessZero(next), Sum(coins[indexA..], coinsB[indexB..]));
    }
    var rest := RemoveZeroCoins(if indexA == |coins| then coinsB[indexB..] else coins[indexA..]);
    return Some(sum + rest);
  }

  lemma SumStep(a: seq<Coin>, b: seq<Coin>)
    requires a != [] && b != []
    ensures Sum(a, b) == if Less(a[0].denom, b[0].denom) then OneUnlessZero(a[0]) + Sum(a[1..], b)
                         else if a[0].denom == b[0].denom then
                           OneUnlessZero(Coin(a[0].denom, a[0].amount + b[0].amount)) + Sum(a[1..], b[1..])
                         else OneUnlessZero(b[0]) + Sum(a, b[1..])
  {
  }

  /** Addition conserves: for every denomination, whatever the lists, nothing is lost or made. */
  lemma {:induction false} SumTotals(a: seq<Coin>, b: seq<Coin>, denom: Bytes)
    ensures Total(Sum(a, b), denom) == Total(a, denom) + Total(b, denom)
    decreases |a| + |b|
  {
    if a == [] {
      FilterKeeps(b);
    } else if b == [] {
      FilterKeeps(a);
    } else {
      SumStep(a, b);
      if Less(a[0].denom, b[0].denom) {
        SumTotals(a[1..], b, denom);
        TotalConcat(OneUnlessZero(a[0]), Sum(a[1..], b), denom);
      } else if a[0].denom == b[0].denom {
        SumTotals(a[1..], b[1..], denom);
        TotalConcat(OneUnlessZero(Coin(a[0].denom, a[0].amount + b[0].amount)), Sum(a[1..], b[1..]), denom);
      } else {
        SumTotals(a, b[1..], denom);
        TotalConcat(OneUnlessZero(b[0]), Sum(a, b[1..]), denom);
      }
    }
  }

  /** The sum of two ascending sets is an ascending set without zeros. */
  lemma {:induction false} SumStrict(a: seq<Coin>, b: seq<Coin>)
    requires Strict(a) && Strict(b)
    ensures Strict(Sum(a, b)) && NoZeros(Sum(a, b))
    ensures forall low: Bytes :: AllAbove(a, low) && AllAbove(b, low) ==> AllAbove(Sum(a, b), low)
    decreases |a| + |b|
  {
    if a == [] {
      FilterKeeps(b);
    } else if b == [] {
      FilterKeeps(a);
    } else {
      var da, db := a[0].denom, b[0].denom;
      LessTotal(da, db);
      if Less(da, db) {
        SumStrict(a[1..], b);
        FirstIsLeast(b, da);
        PutFirst(a[0], Sum(a[1..], b));
      } else if da == db {
        SumStrict(a[1..], b[1..]);
        PutFirst(Coin(da, a[0].amount + b[0].amount), Sum(a[1..], b[1..]));
      } else {
        SumStrict(a, b[1..]);
        FirstIsLeast(a, db);
        PutFirst(b[0], Sum(a, b[1..]));
      }
    }
  }

  // ----- from totals to coins -----

  /** In an ascending set a coin's amount is the total of its denomination. */
  lemma {:induction false} CoinTotal(coins: seq<Coin>, i: nat)
    requires Strict(coins) && i < |coins|
    ensures Total(coins, coins[i].denom) == coins[i].amount
  {
    if i == 0 {
      NoneBelow(coins[1..], coins[0].denom);
    } else {
      assert Less(coins[0].denom, coins[1..][i - 1].denom);
      LessIrreflexive(coins[0].denom);
      CoinTotal(coins[1..], i - 1);
    }
  }

  /** A denomination with a total that is not zero has a coin. */
  lemma {:induction false} TotalCoin(coins: seq<Coin>, denom: Bytes) returns (i: nat)
    requires Total(coins, denom) != 0
    ensures i < |coins| && coins[i].denom == denom
  {
    if coins[0].denom == denom {
      i := 0;
    } else {
      i := TotalCoin(coins[1..], denom);
      i := i + 1;
    }
  }

  /** The coins of the denomination together can be in a valid set. */
  predicate GoodTotal(total: int, denom: Bytes) {
    total != 0 ==> total > 0 && ValidDenom(denom)
  }

  lemma ValidGivesTotal(coins: seq<Coin>, denom: Bytes)
    requires Valid(coins)
    ensures GoodTotal(Total(coins, denom), denom)
  {
    if Total(coins, denom) != 0 {
      var i := TotalCoin(coins, denom);
      CoinTotal(coins, i);
    }
  }

  lemma TotalsGiveValid(coins: seq<Coin>)
    requires Strict(coins) && NoZeros(coins) && forall denom: Bytes :: GoodTotal(Total(coins, denom), denom)
    ensures Valid(coins)
  {
    forall i | 0 <= i < |coins| ensures coins[i].amount > 0 && ValidDenom(coins[i].denom) {
      CoinTotal(coins, i);
      assert GoodTotal(Total(coins, coins[i].denom), coins[i].denom);
    }
  }

  lemma ValidTotals(coins: seq<Coin>, denom: Bytes)
    requires Valid(coins)
    ensures Total(coins, denom) >= 0 && (Total(coins, denom) > 0 ==> ValidDenom(denom))
    ensures Amount(coins, denom) == Total(coins, denom)
  {
    ValidGivesTotal(coins, denom);
    AmountIsTotal(coins, denom);
  }

  /** The sum of valid sets is valid, and holds the sum of the amounts of each denomination. */
  lemma SumValid(a: seq<Coin>, b: seq<Coin>)
    requires Valid(a) && Valid(b)
    ensures Sorted(a) && Sorted(b) && Valid(Sum(a, b))
    ensures forall denom: Bytes :: Amount(Sum(a, b), denom) == Amount(a, denom) + Amount(b, denom)
  {
    StrictIsSorted(a);
    StrictIsSorted(b);
    SumStrict(a, b);
    forall denom: Bytes ensures GoodTotal(Total(Sum(a, b), denom), denom) {
      SumTotals(a, b, denom);
      ValidTotals(a, denom);
      ValidTotals(b, denom);
    }
    TotalsGiveValid(Sum(a, b));
    forall denom: Bytes ensures Amount(Sum(a, b), denom) == Amount(a, denom) + Amount(b, denom) {
      SumTotals(a, b, denom);
      AmountIsTotal(a, denom);
      AmountIsTotal(b, denom);
      AmountIsTotal(Sum(a, b), denom);
    }
  }

  /** Every denomination can have what the two lists have of it together. */
  ghost predicate GoodTotals(a: seq<Coin>, b: seq<Coin>) {
    forall denom: Bytes :: GoodTotal(Total(a, denom) + Total(b, denom), denom)
  }

  /** Exactly when the sum of two ascending sets is valid, by totals. */
  lemma SumValidByTotals(a: seq<Coin>, b: seq<Coin>)
    requires Strict(a) && Strict(b)
    ensures Valid(Sum(a, b)) <==> GoodTotals(a, b)
  {
    var sum := Sum(a, b);
    SumStrict(a, b);
    if Valid(sum) {
      forall denom: Bytes ensures GoodTotal(Total(a, denom) + Total(b, denom), denom) {
        SumTotals(a, b, denom);
        ValidGivesTotal(sum, denom);
      }
    }
    if GoodTotals(a, b) {
      forall denom: Bytes ensures GoodTotal(Total(sum, denom), denom) {
        SumTotals(a, b, denom);
        assert GoodTotal(Total(a, denom) + Total(b, denom), denom);
      }
      TotalsGiveValid(sum);
    }
  }

  /** A denomination that occurs twice passes the test for order, and the sum is not valid. */
  lemma SortedIsNotEnough(denom: Bytes)
    ensures var twice := [Coin(denom, 1), Coin(denom, 1)];
            Sorted(twice) && Sorted([]) && !Valid(Sum(twice, []))
  {
    LessIrreflexive(denom);
    var one, twice := [Coin(denom, 1)], [Coin(denom, 1), Coin(denom, 1)];
    assert twice[1..] == one;
    WithoutZerosOf(twice);
    assert !AllAbove(one, denom) by { assert one[0].denom == denom; }
  }

  // ----- subtraction -----

  function Negative(coins: seq<Coin>): (r: seq<Coin>)
    ensures |r| == |coins|
    ensures forall i :: 0 <= i < |coins| ==> r[i] == Coin(coins[i].denom, -coins[i].amount)
  {
    if coins == [] then [] else [Coin(coins[0].denom, -coins[0].amount)] + Negative(coins[1..])
  }

  lemma {:induction false} NegativeKeeps(coins: seq<Coin>)
    ensures forall denom: Bytes :: Total(Negative(coins), denom) == -Total(coins, denom)
    ensures Strict(Negative(coins)) == Strict(coins)
  {
    if coins != [] {
      NegativeKeeps(coins[1..]);
      var n := Negative(coins);
      assert n[1..] == Negative(coins[1..]);
      assert AllAbove(n[1..], n[0].denom) == AllAbove(coins[1..], coins[0].denom) by {
        assert forall i :: 0 <= i < |coins| - 1 ==> n[1..][i].denom == coins[1..][i].denom;
      }
    }
  }

  predicate AnyNegative(coins: seq<Coin>) {
    exists i :: 0 <= i < |coins| && coins[i].amount < 0
  }

  function Difference(a: seq<Coin>, b: seq<Coin>): seq<Coin> {
    Sum(a, Negative(b))
  }

  /** SafeSub: the difference and whether it is negative somewhere; None when the lists are not sorted. */
  method SafeSub(coins: seq<Coin>, coinsB: seq<Coin>) returns (diff: Option<seq<Coin>>, hasNeg: bool)
    ensures diff == if Sorted(coins) && Sorted(coinsB) then Some(Difference(coins, coinsB)) else None
    ensures diff.Some? ==> hasNeg == AnyNegative(diff.value)
  {
    assert Sorted(Negative(coinsB)) == Sorted(coinsB);
    diff := SafeAdd(coins, Negative(coinsB));
    hasNeg := false;
    if diff.Some? {
      for i := 0 to |diff.value|
        invariant !hasNeg && forall j :: 0 <= j < i ==> diff.value[j].amount >= 0
      {
        if diff.value[i].amount < 0 {
          return diff, true;
        }
      }
    }
  }

  lemma DifferenceTotals(a: seq<Coin>, b: seq<Coin>)
    requires Strict(a) && Strict(b)
    ensures Strict(Difference(a, b)) && NoZeros(Difference(a, b))
    ensures forall denom: Bytes :: Total(Difference(a, b), denom) == Total(a, denom) - Total(b, denom)
  {
    NegativeKeeps(b);
    SumStrict(a, Negative(b));
    forall denom: Bytes ensures Total(Difference(a, b), denom) == Total(a, denom) - Total(b, denom) {
      SumTotals(a, Negative(b), denom);
    }
  }

  /** Some denomination has less in a than in b. */
  ghost predicate FallsShort(a: seq<Coin>, b: seq<Coin>) {
    exists denom: Bytes :: Total(a, denom) < Total(b, denom)
  }

  /** On ascending sets SafeSub flags a negative exactly when some denomination falls short. */
  lemma NegativeByTotals(a: seq<Coin>, b: seq<Coin>)
    requires Strict(a) && Strict(b)
    ensures AnyNegative(Difference(a, b)) <==> FallsShort(a, b)
  {
    var diff := Difference(a, b);
    DifferenceTotals(a, b);
    if AnyNegative(diff) {
      var i :| 0 <= i < |diff| && diff[i].amount < 0;
      CoinTotal(diff, i);
      assert Total(a, diff[i].denom) < Total(b, diff[i].denom);
    }
    if FallsShort(a, b) {
      var denom: Bytes :| Total(a, denom) < Total(b, denom);
      var i := TotalCoin(diff, denom);
      CoinTotal(diff, i);
    }
  }

  /** Sub: None stands for its panics. */
  method Sub(coins: seq<Coin>, coinsB: seq<Coin>) returns (r: Option<seq<Coin>>)
    ensures r.Some? <==> Sorted(coins) && Sorted(coinsB) && !AnyNegative(Difference(coins, coinsB))
    ensures r.Some? ==> r.value == Difference(coins, coinsB)
  {
    var diff, hasNeg := SafeSub(coins, coinsB);
    return if diff.Some? && hasNeg then None else diff;
  }

  /** What Sub returns on valid sets is valid. */
  lemma DifferenceValid(a: seq<Coin>, b: seq<Coin>)
    requires Valid(a) && Valid(b)
    ensures Valid(Difference(a, b)) <==> !AnyNegative(Difference(a, b))
  {
    var diff := Difference(a, b);
    DifferenceTotals(a, b);
    if !AnyNegative(diff) {
      forall denom: Bytes ensures GoodTotal(Total(diff, denom), denom) {
        ValidTotals(a, denom);
        ValidTotals(b, denom);
        if Total(diff, denom) != 0 {
          var i := TotalCoin(diff, denom);
          CoinTotal(diff, i);
        }
      }
      TotalsGiveValid(diff);
    }
  }

  /** Subtraction undoes addition. */
  lemma SubUndoesAdd(a: seq<Coin>, b: seq<Coin>)
    requires Valid(a) && Valid(b)
    ensures Difference(Sum(a, b), b) == a && !AnyNegative(Difference(Sum(a, b), b))
  {
    SumValid(a, b);
    DifferenceTotals(Sum(a, b), b);
    forall denom: Bytes ensures Total(Difference(Sum(a, b), b), denom) == Total(a, denom) {
      SumTotals(a, b, denom);
    }
    SameTotals(Difference(Sum(a, b), b), a);
  }

  /** Addition of ascending sets is associative. */
  lemma SumAssociates(a: seq<Coin>, b: seq<Coin>, c: seq<Coin>)
    requires Strict(a) && Strict(b) && Strict(c)
    ensures Sum(Sum(a, b), c) == Sum(a, Sum(b, c))
  {
    SumStrict(a, b);
    SumStrict(b, c);
    var left, right := Sum(Sum(a, b), c), Sum(a, Sum(b, c));
    SumStrict(Sum(a, b), c);
    SumStrict(a, Sum(b, c));
    forall denom: Bytes ensures Total(left, denom) == Total(right, denom) {
      SumTwice(a, b, c, denom);
    }
    SameTotals(left, right);
  }

  lemma SumTwice(a: seq<Coin>, b: seq<Coin>, c: seq<Coin>, denom: Bytes)
    ensures Total(Sum(Sum(a, b), c), denom) == Total(Sum(a, Sum(b, c)), denom)
  {
    SumTotals(a, b, denom);
    SumTotals(b, c, denom);
    SumTotals(Sum(a, b), c, denom);
    SumTotals(a, Sum(b, c), denom);
  }
}
