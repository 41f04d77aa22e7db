/** Maximum and minimum of coin sets, the comparisons between sets, and the laws that tie them together. */
module CoinLattice {
  import opened Basics
  import opened Sequences
  import opened ByteOrder
  import opened Coins
  import opened CoinMerge
  import opened CoinColumns

  // ----- NewCoins -----

  function Inserted(coin: Coin, coins: seq<Coin>): seq<Coin> {
    if coins == [] || !Less(coins[0].denom, coin.denom) then [coin] + coins
    else [coins[0]] + Inserted(coin, coins[1..])
  }

  /** The coins in ascending order of denominations. */
  function InOrder(coins: seq<Coin>): seq<Coin> {
    if coins == [] then [] else Inserted(coins[0], InOrder(coins[1..]))
  }

  /** NewCoins: zeros are removed and the rest is sorted; None stands for the panic when that is not valid. */
  function NewCoins(coins: seq<Coin>): Option<seq<Coin>> {
    var sanitized := InOrder(WithoutZeros(coins));
    if Valid(sanitized) then Some(sanitized) else None
  }

  lemma {:induction false} InsertedTotals(coin: Coin, coins: seq<Coin>, denom: Bytes)
    ensures Total(Inserted(coin, coins), denom) == Total([coin] + coins, denom)
  {
    if coins != [] && Less(coins[0].denom, coin.denom) {
      InsertedTotals(coin, coins[1..], denom);
      TotalConcat([coin], coins[1..], denom);
      TotalConcat([coin], coins, denom);
      TotalConcat([coins[0]], Inserted(coin, coins[1..]), denom);
      TotalConcat([coins[0]], coins[1..], denom);
      assert coins == [coins[0]] + coins[1..];
    }
  }

  lemma {:induction false} InOrderTotals(coins: seq<Coin>, denom: Bytes)
    ensures Total(InOrder(coins), denom) == Total(coins, denom)
  {
    if coins != [] {
      InOrderTotals(coins[1..], denom);
      InsertedTotals(coins[0], InOrder(coins[1..]), denom);
      TotalConcat([coins[0]], InOrder(coins[1..]), denom);
      TotalConcat([coins[0]], coins[1..], denom);
      assert coins == [coins[0]] + coins[1..];
    }
  }

  /** What is in order already is not touched. */
  lemma {:induction false} InOrderOfStrict(coins: seq<Coin>)
    requires Strict(coins)
    ensures InOrder(coins) == coins
  {
    if coins != [] {
      InOrderOfStrict(coins[1..]);
      if |coins| > 1 {
        LessTotal(coins[0].denom, coins[1..][0].denom);
      }
      assert coins == [coins[0]] + coins[1..];
    }
  }

  /** What sort.Sort may leave of the coins. */
  ghost predicate SortOf(sorted: seq<Coin>, coins: seq<Coin>) {
    Sorted(sorted) && multiset(sorted) == multiset(coins)
  }

  lemma SortLength(sorted: seq<Coin>, coins: seq<Coin>)
    requires SortOf(sorted, coins)
    ensures |sorted| == |coins|
  {
    assert |multiset(sorted)| == |sorted| && |multiset(coins)| == |coins|;
  }

  lemma {:induction false} InsertedSorts(coin: Coin, coins: seq<Coin>)
    requires Sorted(coins)
    ensures SortOf(Inserted(coin, coins), [coin] + coins)
    ensures forall low: Bytes :: NoneBefore(coins, low) && !Less(coin.denom, low) ==>
                                 NoneBefore(Inserted(coin, coins), low)
  {
    if coins == [] || !Less(coins[0].denom, coin.denom) {
      SortedStartsLeast(coins, coin.denom);
      PutBefore(coin, coins);
    } else {
      var rest := Inserted(coin, coins[1..]);
      SortedTail(coins);
      InsertedSorts(coin, coins[1..]);
      FirstLeast(coins);
      LessTotal(coins[0].denom, coin.denom);
      PutBefore(coins[0], rest);
      assert coins == [coins[0]] + coins[1..];
    }
  }

  lemma PutBefore(coin: Coin, rest: seq<Coin>)
    requires Sorted(rest) && NoneBefore(rest, coin.denom)
    ensures Sorted([coin] + rest)
    ensures forall low: Bytes :: NoneBefore(rest, low) && !Less(coin.denom, low) ==> NoneBefore([coin] + rest, low)
  {
    var all := [coin] + rest;
    forall i | 0 < i < |all| ensures !Less(all[i].denom, all[i - 1].denom) {
      if i == 1 {
        assert all[1] == rest[0];
      } else {
        assert all[i] == rest[i - 1] && all[i - 1] == rest[i - 2];
      }
    }
  }

  lemma {:induction false} InOrderSorts(coins: seq<Coin>)
    ensures SortOf(InOrder(coins), coins)
  {
    if coins != [] {
      InOrderSorts(coins[1..]);
      InsertedSorts(coins[0], InOrder(coins[1..]));
      assert coins == [coins[0]] + coins[1..];
    }
  }

  /** The least coin comes first, whatever the order of the others. */
  lemma FirstOfSort(sorted: seq<Coin>, coins: seq<Coin>)
    requires Strict(coins) && coins != [] && SortOf(sorted, coins)
    ensures sorted != [] && sorted[0] == coins[0]
  {
    SortLength(sorted, coins);
    assert coins[0] in multiset(sorted) && sorted[0] in multiset(coins);
    var i :| 0 <= i < |sorted| && sorted[i] == coins[0];
    FirstLeast(sorted);
    assert !Less(sorted[i].denom, sorted[0].denom);
    var j :| 0 <= j < |coins| && coins[j] == sorted[0];
    LessAfterFirst(coins, j);
  }

  lemma LessAfterFirst(coins: seq<Coin>, j: nat)
    requires Strict(coins) && j < |coins|
    ensures j == 0 || Less(coins[0].denom, coins[j].denom)
  {
    if j > 0 {
      assert coins[1..][j - 1] == coins[j];
    }
  }

  /** Where each denomination occurs once there is only one order. */
  lemma {:induction false} SortOfStrict(sorted: seq<Coin>, coins: seq<Coin>)
    requires Strict(coins) && SortOf(sorted, coins)
    ensures sorted == coins
  {
    SortLength(sorted, coins);
    if coins != [] {
      FirstOfSort(sorted, coins);
      SortedTail(sorted);
      assert sorted == [sorted[0]] + sorted[1..] && coins == [coins[0]] + coins[1..];
      assert multiset(sorted[1..]) == multiset(sorted) - multiset{sorted[0]};
      assert multiset(coins[1..]) == multiset(coins) - multiset{coins[0]};
      SortOfStrict(sorted[1..], coins[1..]);
    }
  }

  /** NewCoins does not depend on how coins of one denomination are sorted. */
  lemma NewCoinsAnySort(coins: seq<Coin>, sorted: seq<Coin>)
    requires SortOf(sorted, WithoutZeros(coins))
    ensures NewCoins(coins) == if Valid(sorted) then Some(sorted) else None
  {
    var sanitized := InOrder(WithoutZeros(coins));
    InOrderSorts(WithoutZeros(coins));
    if Valid(sorted) {
      SortOfStrict(sanitized, sorted);
    } else if Valid(sanitized) {
      SortOfStrict(sorted, sanitized);
    }
  }

  /** NewCoins in full: the coins that are not zero, in an order that makes them a valid set, if there is one. */
  lemma NewCoinsExactly(coins: seq<Coin>, r: seq<Coin>)
    ensures NewCoins(coins) == Some(r) <==> Valid(r) && multiset(r) == multiset(WithoutZeros(coins))
  {
    InOrderSorts(WithoutZeros(coins));
    if Valid(r) && multiset(r) == multiset(WithoutZeros(coins)) {
      StrictIsSorted(r);
      NewCoinsAnySort(coins, r);
    }
  }

  /** A set from NewCoins is valid and amounts to what it was made from. */
  lemma NewCoinsMeans(coins: seq<Coin>)
    requires NewCoins(coins).Some?
    ensures Valid(NewCoins(coins).value)
    ensures forall denom: Bytes :: Amount(NewCoins(coins).value, denom) == Total(coins, denom)
  {
    FilterKeeps(coins);
    forall denom: Bytes ensures Amount(NewCoins(coins).value, denom) == Total(coins, denom) {
      InOrderTotals(WithoutZeros(coins), denom);
      AmountIsTotal(NewCoins(coins).value, denom);
    }
  }

  /** A valid set goes through NewCoins unchanged. */
  lemma NewCoinsOfValid(coins: seq<Coin>)
    requires Valid(coins)
    ensures NewCoins(coins) == Some(coins)
  {
    WithoutZerosOf(coins);
    InOrderOfStrict(coins);
  }

  // ----- maximum and minimum -----

  function Larger(a: Coin, b: Coin): Coin {
    if b.amount > a.amount then b else a
  }

  function Smaller(a: Coin, b: Coin): Coin {
    if b.amount < a.amount then b else a
  }

  function MaxMerge(a: seq<Coin>, b: seq<Coin>): seq<Coin>
    decreases |a| + |b|
  {
    if a == [] then b
    else if b == [] then a
    else if Less(a[0].denom, b[0].denom) then [a[0]] + MaxMerge(a[1..], b)
    else if a[0].denom == b[0].denom then [Larger(a[0], b[0])] + MaxMerge(a[1..], b[1..])
    else [b[0]] + MaxMerge(a, b[1..])
  }

  function MinMerge(a: seq<Coin>, b: seq<Coin>): seq<Coin>
    decreases |a| + |b|
  {
    if a == [] || b == [] then []
    else if Less(a[0].denom, b[0].denom) then MinMerge(a[1..], b)
    else if a[0].denom == b[0].denom then OneUnlessZero(Smaller(a[0], b[0])) + MinMerge(a[1..], b[1..])
    else MinMerge(a, b[1..])
  }

  /** Max: a merge and two loops for what is left over. */
  method Max(coins: seq<Coin>, coinsB: seq<Coin>) returns (r: Option<seq<Coin>>)
    ensures r == NewCoins(MaxMerge(coins, coinsB))
  {
    var max: seq<Coin> := [];
    var indexA, indexB := 0, 0;
    while indexA < |coins| && indexB < |coinsB|
      invariant 0 <= indexA <= |coins| && 0 <= indexB <= |coinsB|
      invariant max + MaxMerge(coins[indexA..], coinsB[indexB..]) == MaxMerge(coins, coinsB)
      decreases |coins| - indexA + |coinsB| - indexB
    {
      var coinA, coinB := coins[indexA], coinsB[indexB];
      assert coins[indexA..][1..] == coins[indexA + 1..] && coinsB[indexB..][1..] == coinsB[indexB + 1..];
      LessTotal(coinA.denom, coinB.denom);
      var next: Coin;
      if Less(coinA.denom, coinB.denom) {
        next, indexA := coinA, indexA + 1;
      } else if coinA.denom == coinB.denom {
        next := Larger(coinA, coinB);
        indexA, indexB := indexA + 1, indexB + 1;
      } else {
        next, indexB := coinB, indexB + 1;
      }
      Associate(max, [next], MaxMerge(coins[indexA..], coinsB[indexB..]));
      max := max + [next];
    }
    max := max + coins[indexA..] + coinsB[indexB..];
    assert max == MaxMerge(coins, coinsB);
    return NewCoins(max);
  }

  method Min(coins: seq<Coin>, coinsB: seq<Coin>) returns (r: Option<seq<Coin>>)
    ensures r == NewCoins(MinMerge(coins, coinsB))
  {
    var min: seq<Coin> := [];
    var indexA, indexB := 0, 0;
    while indexA < |coins| && indexB < |coinsB|
      invariant 0 <= indexA <= |coins| && 0 <= indexB <= |coinsB|
      invariant min + MinMerge(coins[indexA..], coinsB[indexB..]) == MinMerge(coins, coinsB)
      decreases |coins| - indexA + |coinsB| - indexB
    {
      var coinA, coinB := coins[indexA], coinsB[indexB];
      assert coins[indexA..][1..] == coins[indexA + 1..] && coinsB[indexB..][1..] == coinsB[indexB + 1..];
      LessTotal(coinA.denom, coinB.denom);
      if Less(coinA.denom, coinB.denom) {
        indexA := indexA + 1;
      } else if coinA.denom == coinB.denom {
        var minCoin := Smaller(coinA, coinB);
        indexA, indexB := indexA + 1, indexB + 1;
        Associate(min, OneUnlessZero(minCoin), MinMerge(coins[indexA..], coinsB[indexB..]));
        min := if minCoin.amount != 0 then min + [minCoin] else min + [];
      } else {
        indexB := indexB + 1;
      }
    }
    assert min + [] == min;
    return NewCoins(min);
  }

  function MaxOf(x: int, y: int): int { if y > x then y else x }

  function MinOf(x: int, y: int): int { if y < x then y else x }

  lemma PutPositive(coin: Coin, rest: seq<Coin>)
    requires Valid(rest) && AllAbove(rest, coin.denom) && coin.amount > 0 && ValidDenom(coin.denom)
    ensures Valid([coin] + rest)
    ensures forall low: Bytes :: Less(low, coin.denom) ==> AllAbove([coin] + rest, low)
  {
    PutFirst(coin, rest);
  }

  lemma TotalFirst(coin: Coin, rest: seq<Coin>, denom: Bytes)
    ensures Total([coin] + rest, denom) == (if coin.denom == denom then coin.amount else 0) + Total(rest, denom)
  {
    assert ([coin] + rest)[1..] == rest;
  }

  lemma ValidRest(coins: seq<Coin>)
    requires Valid(coins) && coins != []
    ensures Valid(coins[1..]) && coins[0].amount > 0 && ValidDenom(coins[0].denom)
  {
  }

  /** The merge for Max gives a valid set with the larger amount of each denomination. */
  lemma {:induction false} MaxMergeValid(a: seq<Coin>, b: seq<Coin>)
    requires Valid(a) && Valid(b)
    ensures Valid(MaxMerge(a, b))
    ensures forall low: Bytes :: AllAbove(a, low) && AllAbove(b, low) ==> AllAbove(MaxMerge(a, b), low)
    decreases |a| + |b|
  {
    if a != [] && b != [] {
      ValidRest(a);
      ValidRest(b);
      var da, db := a[0].denom, b[0].denom;
      LessTotal(da, db);
      if Less(da, db) {
        MaxMergeValid(a[1..], b);
        FirstIsLeast(b, da);
        PutPositive(a[0], MaxMerge(a[1..], b));
      } else if da == db {
        MaxMergeValid(a[1..], b[1..]);
        PutPositive(Larger(a[0], b[0]), MaxMerge(a[1..], b[1..]));
      } else {
        MaxMergeValid(a, b[1..]);
        FirstIsLeast(a, db);
        PutPositive(b[0], MaxMerge(a, b[1..]));
      }
    }
  }

  lemma {:induction false} MaxMergeTotals(a: seq<Coin>, b: seq<Coin>, denom: Bytes)
    requires Valid(a) && Valid(b)
    ensures Total(MaxMerge(a, b), denom) == MaxOf(Total(a, denom), Total(b, denom))
    decreases |a| + |b|
  {
    ValidTotals(a, denom);
    ValidTotals(b, denom);
    if a != [] && b != [] {
      ValidRest(a);
      ValidRest(b);
      var da, db := a[0].denom, b[0].denom;
      LessTotal(da, db);
      NoneBelow(a[1..], da);
      NoneBelow(b[1..], db);
      if Less(da, db) {
        MaxMergeTotals(a[1..], b, denom);
        TotalFirst(a[0], MaxMerge(a[1..], b), denom);
        FirstIsLeast(b, da);
        NoneBelow(b, da);
      } else if da == db {
        MaxMergeTotals(a[1..], b[1..], denom);
        TotalFirst(Larger(a[0], b[0]), MaxMerge(a[1..], b[1..]), denom);
      } else {
        MaxMergeTotals(a, b[1..], denom);
        TotalFirst(b[0], MaxMerge(a, b[1..]), denom);
        FirstIsLeast(a, db);
        NoneBelow(a, db);
      }
    }
  }

  /** The merge for Min gives a valid set with the smaller amount of each denomination. */
  lemma {:induction false} MinMergeValid(a: seq<Coin>, b: seq<Coin>)
    requires Valid(a) && Valid(b)
    ensures Valid(MinMerge(a, b))
    ensures forall low: Bytes :: AllAbove(a, low) && AllAbove(b, low) ==> AllAbove(MinMerge(a, b), low)
    decreases |a| + |b|
  {
    if a != [] && b != [] {
      ValidRest(a);
      ValidRest(b);
      var da, db := a[0].denom, b[0].denom;
      LessTotal(da, db);
      if Less(da, db) {
        MinMergeValid(a[1..], b);
        RestAbove(a);
      } else if da == db {
        MinMergeValid(a[1..], b[1..]);
        PutPositive(Smaller(a[0], b[0]), MinMerge(a[1..], b[1..]));
      } else {
        MinMergeValid(a, b[1..]);
        RestAbove(b);
      }
    }
  }

  lemma RestAbove(coins: seq<Coin>)
    requires coins != []
    ensures forall low: Bytes :: AllAbove(coins, low) ==> AllAbove(coins[1..], low)
  {
  }

  lemma {:induction false} MinMergeTotals(a: seq<Coin>, b: seq<Coin>, denom: Bytes)
    requires Valid(a) && Valid(b)
    ensures Total(MinMerge(a, b), denom) == MinOf(Total(a, denom), Total(b, denom))
    decreases |a| + |b|
  {
    ValidTotals(a, denom);
    ValidTotals(b, denom);
    if a != [] && b != [] {
      ValidRest(a);
      ValidRest(b);
      var da, db := a[0].denom, b[0].denom;
      LessTotal(da, db);
      NoneBelow(a[1..], da);
      NoneBelow(b[1..], db);
      if Less(da, db) {
        MinMergeTotals(a[1..], b, denom);
        FirstIsLeast(b, da);
        NoneBelow(b, da);
        ValidTotals(a[1..], denom);
      } else if da == db {
        MinMergeTotals(a[1..], b[1..], denom);
        TotalFirst(Smaller(a[0], b[0]), MinMerge(a[1..], b[1..]), denom);
      } else {
        MinMergeTotals(a, b[1..], denom);
        FirstIsLeast(a, db);
        NoneBelow(a, db);
        ValidTotals(b[1..], denom);
      }
    }
  }

  /** On valid sets Max and Min do not panic; they give the pointwise maximum and minimum, as valid sets. */
  lemma MaxAndMin(a: seq<Coin>, b: seq<Coin>)
    requires Valid(a) && Valid(b)
    ensures NewCoins(MaxMerge(a, b)) == Some(MaxMerge(a, b)) && Valid(MaxMerge(a, b))
    ensures NewCoins(MinMerge(a, b)) == Some(MinMerge(a, b)) && Valid(MinMerge(a, b))
    ensures forall denom: Bytes :: Amount(MaxMerge(a, b), denom) == MaxOf(Amount(a, denom), Amount(b, denom))
    ensures forall denom: Bytes :: Amount(MinMerge(a, b), denom) == MinOf(Amount(a, denom), Amount(b, denom))
  {
    MaxMergeValid(a, b);
    MinMergeValid(a, b);
    NewCoinsOfValid(MaxMerge(a, b));
    NewCoinsOfValid(MinMerge(a, b));
    forall denom: Bytes
      ensures Amount(MaxMerge(a, b), denom) == MaxOf(Amount(a, denom), Amount(b, denom))
      ensures Amount(MinMerge(a, b), denom) == MinOf(Amount(a, denom), Amount(b, denom))
    {
      MaxMergeTotals(a, b, denom);
      MinMergeTotals(a, b, denom);
      AmountIsTotal(a, denom);
      AmountIsTotal(b, denom);
      AmountIsTotal(MaxMerge(a, b), denom);
      AmountIsTotal(MinMerge(a, b), denom);
    }
  }

  // ----- comparisons -----

  /** Every denomination has at least as much in a as in b. */
  ghost predicate Covers(a: seq<Coin>, b: seq<Coin>) {
    forall denom: Bytes :: Amount(b, denom) <= Amount(a, denom)
  }

  /** The first coin of the denomination decides. */
  lemma {:induction false} AmountExactly(coins: seq<Coin>, denom: Bytes)
    ensures !Occurs(denom, coins) ==> Amount(coins, denom) == 0
    ensures forall i :: 0 <= i < |coins| && coins[i].denom == denom && !Occurs(denom, coins[..i]) ==>
                        Amount(coins, denom) == coins[i].amount
  {
    if coins != [] {
      AmountExactly(coins[1..], denom);
      OccursRest(coins, denom);
      forall i | 0 <= i < |coins| && coins[i].denom == denom && !Occurs(denom, coins[..i])
        ensures Amount(coins, denom) == coins[i].amount
      {
        if i > 0 {
          OccursRest(coins[..i], denom);
          assert coins[..i][1..] == coins[1..][..i - 1] && coins[1..][i - 1] == coins[i];
        }
      }
    }
  }

  lemma OccursRest(coins: seq<Coin>, denom: Bytes)
    requires coins != []
    ensures Occurs(denom, coins) <==> coins[0].denom == denom || Occurs(denom, coins[1..])
  {
    if Occurs(denom, coins) {
      var i :| 0 <= i < |coins| && coins[i].denom == denom;
      if i > 0 {
        assert coins[1..][i - 1].denom == denom;
      }
    }
    if Occurs(denom, coins[1..]) {
      var i :| 0 <= i < |coins[1..]| && coins[1..][i].denom == denom;
      assert coins[i + 1].denom == denom;
    }
  }

  /** AmountOf; None stands for the panic on a denomination that is not valid. */
  method AmountOf(coins: seq<Coin>, denom: Bytes) returns (r: Option<int>)
    ensures r == if ValidDenom(denom) then Some(Amount(coins, denom)) else None
    ensures ValidDenom(denom) && !Occurs(denom, coins) ==> r == Some(0)
    ensures ValidDenom(denom) ==>
              forall i :: 0 <= i < |coins| && coins[i].denom == denom && !Occurs(denom, coins[..i]) ==>
                          r == Some(coins[i].amount)
  {
    AmountExactly(coins, denom);
    if !ValidDenom(denom) {
      return None;
    }
    for i := 0 to |coins|
      invariant Amount(coins[i..], denom) == Amount(coins, denom)
    {
      assert coins[i..][1..] == coins[i + 1..];
      if coins[i].denom == denom {
        return Some(coins[i].amount);
      }
    }
    return Some(0);
  }

  /** The coins of the second set in turn: the first that is too much, or has no valid denomination, decides. */
  function EachCovered(coins: seq<Coin>, coinsB: seq<Coin>): Option<bool> {
    if coinsB == [] then Some(true)
    else if !ValidDenom(coinsB[0].denom) then None
    else if coinsB[0].amount > Amount(coins, coinsB[0].denom) then Some(false)
    else EachCovered(coins, coinsB[1..])
  }

  /** The coin has a valid denomination, and the set has as much of it. */
  predicate IsCovered(coins: seq<Coin>, coin: Coin) {
    ValidDenom(coin.denom) && coin.amount <= Amount(coins, coin.denom)
  }

  predicate CoveredBefore(coins: seq<Coin>, coinsB: seq<Coin>, i: nat)
    requires i <= |coinsB|
  {
    forall j :: 0 <= j < i ==> IsCovered(coins, coinsB[j])
  }

  /** The first coin that is not covered has no valid denomination. */
  predicate Panics(coins: seq<Coin>, coinsB: seq<Coin>) {
    exists i :: 0 <= i < |coinsB| && !ValidDenom(coinsB[i].denom) && CoveredBefore(coins, coinsB, i)
  }

  lemma CoveredRest(coins: seq<Coin>, coinsB: seq<Coin>, i: nat)
    requires 1 <= i <= |coinsB|
    ensures CoveredBefore(coins, coinsB, i) <==>
            IsCovered(coins, coinsB[0]) && CoveredBefore(coins, coinsB[1..], i - 1)
  {
    if CoveredBefore(coins, coinsB, i) {
      forall j | 0 <= j < i - 1 ensures IsCovered(coins, coinsB[1..][j]) { assert coinsB[1..][j] == coinsB[j + 1]; }
    }
    if IsCovered(coins, coinsB[0]) && CoveredBefore(coins, coinsB[1..], i - 1) {
      forall j | 0 <= j < i ensures IsCovered(coins, coinsB[j]) {
        assert j > 0 ==> coinsB[j] == coinsB[1..][j - 1];
      }
    }
  }

  lemma PanicsRest(coins: seq<Coin>, coinsB: seq<Coin>)
    requires coinsB != [] && IsCovered(coins, coinsB[0])
    ensures Panics(coins, coinsB) <==> Panics(coins, coinsB[1..])
  {
    if Panics(coins, coinsB) {
      var i :| 0 <= i < |coinsB| && !ValidDenom(coinsB[i].denom) && CoveredBefore(coins, coinsB, i);
      CoveredRest(coins, coinsB, i);
      assert coinsB[1..][i - 1] == coinsB[i];
    }
    if Panics(coins, coinsB[1..]) {
      var i :| 0 <= i < |coinsB[1..]| && !ValidDenom(coinsB[1..][i].denom) && CoveredBefore(coins, coinsB[1..], i);
      CoveredRest(coins, coinsB, i + 1);
      assert coinsB[i + 1] == coinsB[1..][i];
    }
  }

  lemma {:induction false} EachCoveredExactly(coins: seq<Coin>, coinsB: seq<Coin>)
    ensures EachCovered(coins, coinsB) == Some(true) <==> CoveredBefore(coins, coinsB, |coinsB|)
    ensures EachCovered(coins, coinsB) == None <==> Panics(coins, coinsB)
  {
    if coinsB != [] {
      EachCoveredExactly(coins, coinsB[1..]);
      CoveredRest(coins, coinsB, |coinsB|);
      if IsCovered(coins, coinsB[0]) {
        PanicsRest(coins, coinsB);
      } else if !ValidDenom(coinsB[0].denom) {
        assert CoveredBefore(coins, coinsB, 0);
      }
    }
  }

  /** IsAllGTE, which is IsAllLTE with its arguments swapped; None stands for a panic. */
  method IsAllGTE(coins: seq<Coin>, coinsB: seq<Coin>) returns (r: Option<bool>)
    ensures coinsB == [] ==> r == Some(true)
    ensures coinsB != [] && coins == [] ==> r == Some(false)
    ensures coinsB != [] && coins != [] ==>
            && (r == Some(true) <==> CoveredBefore(coins, coinsB, |coinsB|))
            && (r == None <==> Panics(coins, coinsB))
    ensures Valid(coins) && Valid(coinsB) ==> r == Some(Covers(coins, coinsB))
  {
    CoveredMeansCovers(coins, coinsB);
    EachCoveredExactly(coins, coinsB);
    if |coinsB| == 0 {
      return Some(true);
    }
    if |coins| == 0 {
      return Some(false);
    }
    for i := 0 to |coinsB|
      invariant EachCovered(coins, coinsB[i..]) == EachCovered(coins, coinsB)
    {
      assert coinsB[i..][0] == coinsB[i] && coinsB[i..][1..] == coinsB[i + 1..];
      var amount := AmountOf(coins, coinsB[i].denom);
      if amount.None? {
        return None;
      }
      if coinsB[i].amount > amount.value {
        return Some(false);
      }
    }
    return Some(true);
  }

  lemma {:induction false} EachCoveredMeans(coins: seq<Coin>, coinsB: seq<Coin>)
    requires AllDenomsValid(coinsB)
    ensures EachCovered(coins, coinsB) ==
            Some(forall i :: 0 <= i < |coinsB| ==> coinsB[i].amount <= Amount(coins, coinsB[i].denom))
  {
    if coinsB != [] {
      EachCoveredMeans(coins, coinsB[1..]);
      assert forall i :: 1 <= i < |coinsB| ==> coinsB[i] == coinsB[1..][i - 1];
    }
  }

  /** On valid sets the answer is whether every denomination has at least as much; an empty set covers only itself. */
  lemma CoveredMeansCovers(coins: seq<Coin>, coinsB: seq<Coin>)
    ensures Valid(coins) && Valid(coinsB) ==>
            && EachCovered(coins, coinsB) == Some(Covers(coins, coinsB))
            && (coins == [] ==> Covers(coins, coinsB) == (coinsB == []))
  {
    if Valid(coins) && Valid(coinsB) {
      EachCoveredMeans(coins, coinsB);
      CoversPointwise(coins, coinsB);
      if coins == [] && coinsB != [] {
        assert coinsB[0].amount > Amount(coins, coinsB[0].denom);
      }
    }
  }

  /** It is enough to look at the coins of b. */
  lemma CoversPointwise(a: seq<Coin>, b: seq<Coin>)
    ensures Valid(a) && Valid(b) ==>
            (Covers(a, b) <==> forall i :: 0 <= i < |b| ==> b[i].amount <= Amount(a, b[i].denom))
  {
    if Valid(a) && Valid(b) {
      forall i | 0 <= i < |b| ensures Amount(b, b[i].denom) == b[i].amount {
        CoinTotal(b, i);
        AmountIsTotal(b, b[i].denom);
      }
      if forall i :: 0 <= i < |b| ==> b[i].amount <= Amount(a, b[i].denom) {
        forall denom: Bytes ensures Amount(b, denom) <= Amount(a, denom) {
          ValidTotals(a, denom);
          ValidTotals(b, denom);
          if Amount(b, denom) > 0 {
            var i := TotalCoin(b, denom);
          }
        }
      }
    }
  }

  /** The first coins in which the lists differ have different denominations. */
  ghost predicate DenomsDifferFirst(a: seq<Coin>, b: seq<Coin>) {
    exists i :: 0 <= i < |a| && i < |b| && a[i].denom != b[i].denom && forall j :: 0 <= j < i ==> a[j] == b[j]
  }

  /**
   IsEqual; None stands for the panic on coins of different denominations.  What sort.Sort leaves of the two sets is
   given: it may put coins of one denomination in any order.
   */
  method IsEqual(coins: seq<Coin>, coinsB: seq<Coin>, sorted: seq<Coin>, sortedB: seq<Coin>) returns (r: Option<bool>)
    requires SortOf(sorted, coins) && SortOf(sortedB, coinsB)
    ensures r == Some(true) <==> sorted == sortedB
    ensures r == Some(true) ==> multiset(coins) == multiset(coinsB)
    ensures r.None? <==> |coins| == |coinsB| && DenomsDifferFirst(sorted, sortedB)
    ensures Strict(coins) && Strict(coinsB) ==> (r == Some(true) <==> coins == coinsB)
  {
    SortLength(sorted, coins);
    SortLength(sortedB, coinsB);
    if Strict(coins) && Strict(coinsB) {
      SortOfStrict(sorted, coins);
      SortOfStrict(sortedB, coinsB);
    }
    if |coins| != |coinsB| {
      return Some(false);
    }
    for i := 0 to |sorted|
      invariant forall j :: 0 <= j < i ==> sorted[j] == sortedB[j]
    {
      if sorted[i].denom != sortedB[i].denom {
        return None;
      }
      if sorted[i].amount != sortedB[i].amount {
        return Some(false);
      }
    }
    return Some(true);
  }

  // ----- the laws -----

  /** Max is the least upper bound, Min the greatest lower bound. */
  lemma LatticeLaws(a: seq<Coin>, b: seq<Coin>, c: seq<Coin>)
    requires Valid(a) && Valid(b) && Valid(c)
    ensures Covers(MaxMerge(a, b), a) && Covers(MaxMerge(a, b), b)
    ensures Covers(c, a) && Covers(c, b) <==> Covers(c, MaxMerge(a, b))
    ensures Covers(a, MinMerge(a, b)) && Covers(b, MinMerge(a, b))
    ensures Covers(a, c) && Covers(b, c) <==> Covers(MinMerge(a, b), c)
  {
    MaxAndMin(a, b);
    if Covers(c, MaxMerge(a, b)) {
      forall denom: Bytes ensures Amount(a, denom) <= Amount(c, denom) && Amount(b, denom) <= Amount(c, denom) {
        assert Amount(MaxMerge(a, b), denom) <= Amount(c, denom);
      }
    }
    if Covers(MinMerge(a, b), c) {
      forall denom: Bytes ensures Amount(c, denom) <= Amount(a, denom) && Amount(c, denom) <= Amount(b, denom) {
        assert Amount(c, denom) <= Amount(MinMerge(a, b), denom);
      }
    }
  }

  /** A sum is the sum of minimum and maximum. */
  lemma MinPlusMax(a: seq<Coin>, b: seq<Coin>)
    requires Valid(a) && Valid(b)
    ensures Sum(a, b) == Sum(MinMerge(a, b), MaxMerge(a, b))
  {
    var min, max := MinMerge(a, b), MaxMerge(a, b);
    MaxMergeValid(a, b);
    MinMergeValid(a, b);
    SumStrict(a, b);
    SumStrict(min, max);
    forall denom: Bytes ensures Total(Sum(a, b), denom) == Total(Sum(min, max), denom) {
      SumTotals(a, b, denom);
      SumTotals(min, max, denom);
      MaxMergeTotals(a, b, denom);
      MinMergeTotals(a, b, denom);
    }
    SameTotals(Sum(a, b), Sum(min, max));
  }

  /** Sub succeeds exactly on the sets that are covered. */
  lemma SubSucceedsExactly(a: seq<Coin>, b: seq<Coin>)
    requires Valid(a) && Valid(b)
    ensures Sorted(a) && Sorted(b) && (!AnyNegative(Difference(a, b)) <==> Covers(a, b))
    ensures Covers(a, b) ==> Valid(Difference(a, b)) && Sum(Difference(a, b), b) == a
  {
    var diff := Difference(a, b);
    StrictIsSorted(a);
    StrictIsSorted(b);
    DifferenceValid(a, b);
    NegativeByTotals(a, b);
    DifferenceTotals(a, b);
    forall denom: Bytes ensures Amount(a, denom) == Total(a, denom) && Amount(b, denom) == Total(b, denom) {
      AmountIsTotal(a, denom);
      AmountIsTotal(b, denom);
    }
    if !Covers(a, b) {
      var denom: Bytes :| !(Amount(b, denom) <= Amount(a, denom));
      assert Total(a, denom) < Total(b, denom);
    } else {
      forall denom: Bytes ensures Total(b, denom) <= Total(a, denom) {
        assert Amount(b, denom) <= Amount(a, denom);
      }
      SumStrict(diff, b);
      forall denom: Bytes ensures Total(Sum(diff, b), denom) == Total(a, denom) {
        SumTotals(diff, b, denom);
      }
      SameTotals(Sum(diff, b), a);
    }
  }
}
