/**
 Addition and subtraction on every list that passes the test for order, which lets a denomination occur again.  The
 merge then pairs the coins of one denomination position by position.
 */
module CoinColumns {
  import opened Basics
  import opened ByteOrder
  import opened Coins
  import opened CoinMerge

  // ----- columns -----

  /** The amounts of a denomination, in order. */
  function Column(coins: seq<Coin>, denom: Bytes): seq<int> {
    if coins == [] then []
    else if coins[0].denom == denom then [coins[0].amount] + Column(coins[1..], denom)
    else Column(coins[1..], denom)
  }

  /** Two columns added position by position; the shorter goes on with zeros. */
  function Added(x: seq<int>, y: seq<int>): seq<int> {
    if x == [] then y else if y == [] then x else [x[0] + y[0]] + Added(x[1..], y[1..])
  }

  function NonZero(x: seq<int>): seq<int> {
    if x == [] then [] else if x[0] == 0 then NonZero(x[1..]) else [x[0]] + NonZero(x[1..])
  }

  /** An amount of a column, which goes on with zeros. */
  function At(x: seq<int>, i: nat): int {
    if i < |x| then x[i] else 0
  }

  /** What the sum has of a denomination. */
  function SumOfColumns(a: seq<Coin>, b: seq<Coin>, denom: Bytes): seq<int> {
    NonZero(Added(Column(a, denom), Column(b, denom)))
  }

  lemma {:induction false} NoColumn(coins: seq<Coin>, denom: Bytes)
    requires AllAbove(coins, denom)
    ensures Column(coins, denom) == []
  {
    if coins != [] {
      assert Less(denom, coins[0].denom);
      LessIrreflexive(denom);
      NoColumn(coins[1..], denom);
    }
  }

  lemma SortedTail(coins: seq<Coin>)
    requires Sorted(coins) && coins != []
    ensures Sorted(coins[1..])
  {
    var rest := coins[1..];
    forall i | 0 < i < |rest| ensures !Less(rest[i].denom, rest[i - 1].denom) {
      assert !Less(coins[i + 1].denom, coins[i].denom);
    }
  }

  /** Everything in a sorted list is above what its first coin is above. */
  lemma {:induction false} SortedAbove(coins: seq<Coin>, low: Bytes)
    requires Sorted(coins) && (coins != [] ==> Less(low, coins[0].denom))
    ensures AllAbove(coins, low)
  {
    if |coins| > 1 {
      SortedTail(coins);
      assert !Less(coins[1].denom, coins[0].denom);
      LessTotal(coins[0].denom, coins[1].denom);
      if Less(coins[0].denom, coins[1].denom) {
        LessTransitive(low, coins[0].denom, coins[1].denom);
      }
      SortedAbove(coins[1..], low);
      assert forall i :: 1 <= i < |coins| ==> coins[i] == coins[1..][i - 1];
    }
  }

  lemma ColumnFirst(coin: Coin, rest: seq<Coin>, denom: Bytes)
    ensures Column(OneUnlessZero(coin) + rest, denom) ==
            NonZero(if coin.denom == denom then [coin.amount] else []) + Column(rest, denom)
  {
    var all := OneUnlessZero(coin) + rest;
    if coin.amount == 0 {
      assert all == rest;
    } else {
      assert all[0] == coin && all[1..] == rest;
    }
  }

  lemma {:induction false} ColumnOfRest(coins: seq<Coin>, denom: Bytes)
    ensures Column(WithoutZeros(coins), denom) == NonZero(Column(coins, denom))
  {
    if coins != [] {
      ColumnOfRest(coins[1..], denom);
      ColumnFirst(coins[0], WithoutZeros(coins[1..]), denom);
    }
  }

  lemma NonZeroFirst(x: int, rest: seq<int>)
    ensures NonZero([x] + rest) == NonZero([x]) + NonZero(rest)
  {
    assert ([x] + rest)[1..] == rest;
  }

  lemma AddedFirst(x: seq<int>, y: seq<int>)
    requires x != [] && y == []
    ensures Added(x, y) == [x[0]] + Added(x[1..], y)
  {
    assert x == [x[0]] + x[1..];
  }

  /** For all lists in order: of each denomination the sum has the two columns added, without the zeros. */
  lemma {:induction false} SumColumn(a: seq<Coin>, b: seq<Coin>, denom: Bytes)
    requires Sorted(a) && Sorted(b)
    ensures Column(Sum(a, b), denom) == SumOfColumns(a, b, denom)
    decreases |a| + |b|
  {
    if a == [] {
      ColumnOfRest(b, denom);
    } else if b == [] {
      ColumnOfRest(a, denom);
    } else {
      SumStep(a, b);
      SortedTail(a);
      SortedTail(b);
      if Less(a[0].denom, b[0].denom) {
        SumColumnLeft(a, b, denom);
      } else if a[0].denom == b[0].denom {
        SumColumnBoth(a, b, denom);
      } else {
        LessTotal(a[0].denom, b[0].denom);
        SumColumnRight(a, b, denom);
      }
    }
  }

  lemma {:induction false} SumColumnBoth(a: seq<Coin>, b: seq<Coin>, denom: Bytes)
    requires Sorted(a) && Sorted(b) && a != [] && b != [] && a[0].denom == b[0].denom
    ensures Column(Sum(a, b), denom) == SumOfColumns(a, b, denom)
    decreases |a| + |b|, 0
  {
    SortedTail(a);
    SortedTail(b);
    LessIrreflexive(a[0].denom);
    SumColumn(a[1..], b[1..], denom);
    var both, rest := a[0].amount + b[0].amount, Added(Column(a[1..], denom), Column(b[1..], denom));
    ColumnFirst(Coin(a[0].denom, both), Sum(a[1..], b[1..]), denom);
    if a[0].denom == denom {
      AddedBoth(a[0].amount, Column(a[1..], denom), b[0].amount, Column(b[1..], denom));
      NonZeroFirst(both, rest);
    }
  }

  lemma AddedBoth(x: int, xs: seq<int>, y: int, ys: seq<int>)
    ensures Added([x] + xs, [y] + ys) == [x + y] + Added(xs, ys)
  {
    assert ([x] + xs)[1..] == xs && ([y] + ys)[1..] == ys;
  }

  lemma {:induction false} SumColumnLeft(a: seq<Coin>, b: seq<Coin>, denom: Bytes)
    requires Sorted(a) && Sorted(b) && a != [] && b != [] && Less(a[0].denom, b[0].denom)
    ensures Column(Sum(a, b), denom) == SumOfColumns(a, b, denom)
    decreases |a| + |b|, 0
  {
    SortedTail(a);
    SumColumn(a[1..], b, denom);
    ColumnFirst(a[0], Sum(a[1..], b), denom);
    if a[0].denom == denom {
      SortedAbove(b, denom);
      NoColumn(b, denom);
      AddedFirst(Column(a, denom), []);
      NonZeroFirst(a[0].amount, Added(Column(a[1..], denom), []));
    }
  }

  lemma {:induction false} SumColumnRight(a: seq<Coin>, b: seq<Coin>, denom: Bytes)
    requires Sorted(a) && Sorted(b) && a != [] && b != [] && Less(b[0].denom, a[0].denom)
    ensures Column(Sum(a, b), denom) == SumOfColumns(a, b, denom)
    decreases |a| + |b|, 0
  {
    SortedTail(b);
    LessTotal(a[0].denom, b[0].denom);
    LessIrreflexive(a[0].denom);
    SumColumn(a, b[1..], denom);
    ColumnFirst(b[0], Sum(a, b[1..]), denom);
    if b[0].denom == denom {
      SortedAbove(a, denom);
      NoColumn(a, denom);
      NonZeroFirst(b[0].amount, Column(b[1..], denom));
    }
  }

  // ----- order -----

  predicate NoneBefore(coins: seq<Coin>, denom: Bytes) {
    forall i :: 0 <= i < |coins| ==> !Less(coins[i].denom, denom)
  }

  lemma NotLess(a: Bytes, b: Bytes, c: Bytes)
    requires !Less(b, a) && !Less(c, b)
    ensures !Less(c, a)
  {
    LessTotal(a, b);
    LessTotal(b, c);
    LessTotal(a, c);
    if Less(c, a) {
      if Less(a, b) {
        LessTransitive(c, a, b);
      }
    }
  }

  lemma {:induction false} SortedStartsLeast(coins: seq<Coin>, low: Bytes)
    requires Sorted(coins) && (coins != [] ==> !Less(coins[0].denom, low))
    ensures NoneBefore(coins, low)
  {
    if |coins| > 1 {
      SortedTail(coins);
      NotLess(low, coins[0].denom, coins[1].denom);
      SortedStartsLeast(coins[1..], low);
      assert forall i :: 1 <= i < |coins| ==> coins[i] == coins[1..][i - 1];
    }
  }

  lemma PutFirstInOrder(coin: Coin, rest: seq<Coin>)
    requires Sorted(rest) && NoneBefore(rest, coin.denom)
    ensures Sorted(OneUnlessZero(coin) + rest)
    ensures forall low: Bytes :: NoneBefore(rest, low) && !Less(coin.denom, low) ==>
                                 NoneBefore(OneUnlessZero(coin) + rest, low)
  {
    var all := OneUnlessZero(coin) + rest;
    if coin.amount == 0 {
      assert all == rest;
    } else {
      forall i | 0 < i < |all| ensures !Less(all[i].denom, all[i - 1].denom) {
        if i > 1 {
          assert all[i] == rest[i - 1] && all[i - 1] == rest[i - 2];
        } else {
          assert all[1] == rest[0];
        }
      }
    }
  }

  lemma {:induction false} FilterInOrder(coins: seq<Coin>)
    requires Sorted(coins)
    ensures Sorted(WithoutZeros(coins))
    ensures forall low: Bytes :: NoneBefore(coins, low) ==> NoneBefore(WithoutZeros(coins), low)
  {
    if coins != [] {
      SortedTail(coins);
      FilterInOrder(coins[1..]);
      FirstLeast(coins);
      PutFirstInOrder(coins[0], WithoutZeros(coins[1..]));
      TailBefore(coins);
    }
  }

  lemma FirstLeast(coins: seq<Coin>)
    requires Sorted(coins) && coins != []
    ensures NoneBefore(coins, coins[0].denom) && NoneBefore(coins[1..], coins[0].denom)
  {
    LessIrreflexive(coins[0].denom);
    SortedStartsLeast(coins, coins[0].denom);
  }

  lemma TailBefore(coins: seq<Coin>)
    requires coins != []
    ensures forall low: Bytes :: NoneBefore(coins, low) ==> NoneBefore(coins[1..], low) && !Less(coins[0].denom, low)
  {
  }

  /** A sum of lists in order is in order. */
  lemma {:induction false} SumInOrder(a: seq<Coin>, b: seq<Coin>)
    requires Sorted(a) && Sorted(b)
    ensures Sorted(Sum(a, b))
    ensures forall low: Bytes :: NoneBefore(a, low) && NoneBefore(b, low) ==> NoneBefore(Sum(a, b), low)
    decreases |a| + |b|
  {
    if a == [] {
      FilterInOrder(b);
    } else if b == [] {
      FilterInOrder(a);
    } else {
      SumStep(a, b);
      SortedTail(a);
      SortedTail(b);
      FirstLeast(a);
      FirstLeast(b);
      TailBefore(a);
      TailBefore(b);
      var da, db := a[0].denom, b[0].denom;
      LessTotal(da, db);
      if Less(da, db) {
        SortedStartsLeast(b, da);
        SumInOrder(a[1..], b);
        PutFirstInOrder(a[0], Sum(a[1..], b));
      } else if da == db {
        SumInOrder(a[1..], b[1..]);
        PutFirstInOrder(Coin(da, a[0].amount + b[0].amount), Sum(a[1..], b[1..]));
      } else {
        SortedStartsLeast(a, db);
        SumInOrder(a, b[1..]);
        PutFirstInOrder(b[0], Sum(a, b[1..]));
      }
    }
  }

  // ----- when a sum is valid -----

  /** Nothing, or one positive amount of a valid denomination. */
  predicate GoodColumn(column: seq<int>, denom: Bytes) {
    column == [] || (|column| == 1 && column[0] > 0 && ValidDenom(denom))
  }

  ghost predicate GoodColumns(coins: seq<Coin>) {
    forall denom: Bytes :: GoodColumn(Column(coins, denom), denom)
  }

  lemma {:induction false} ValidColumn(coins: seq<Coin>, denom: Bytes)
    requires Valid(coins)
    ensures GoodColumn(Column(coins, denom), denom)
  {
    if coins != [] {
      if coins[0].denom == denom {
        NoColumn(coins[1..], denom);
      } else {
        ValidColumn(coins[1..], denom);
      }
    }
  }

  lemma GoodRest(coins: seq<Coin>)
    requires Sorted(coins) && coins != [] && GoodColumns(coins)
    ensures GoodColumns(coins[1..]) && AllAbove(coins[1..], coins[0].denom)
    ensures coins[0].amount > 0 && ValidDenom(coins[0].denom)
  {
    var first, rest := coins[0].denom, coins[1..];
    assert GoodColumn(Column(coins, first), first);
    assert Column(coins, first) == [coins[0].amount] + Column(rest, first);
    assert Column(rest, first) == [];
    forall denom: Bytes ensures GoodColumn(Column(rest, denom), denom) {
      assert GoodColumn(Column(coins, denom), denom);
    }
    SortedTail(coins);
    if rest != [] {
      assert !Less(coins[1].denom, coins[0].denom);
      LessTotal(first, coins[1].denom);
    }
    SortedAbove(rest, first);
  }

  lemma {:induction false} GoodIsValid(coins: seq<Coin>)
    requires Sorted(coins) && GoodColumns(coins)
    ensures Valid(coins)
  {
    if coins != [] {
      GoodRest(coins);
      SortedTail(coins);
      GoodIsValid(coins[1..]);
    }
  }

  /** Every denomination comes out as nothing, or as one positive amount of a valid denomination. */
  ghost predicate GoodSums(a: seq<Coin>, b: seq<Coin>) {
    forall denom: Bytes :: GoodColumn(SumOfColumns(a, b, denom), denom)
  }

  /** Exactly when what Add returns is valid, for all lists that it accepts. */
  lemma SumValidExactly(a: seq<Coin>, b: seq<Coin>)
    requires Sorted(a) && Sorted(b)
    ensures Valid(Sum(a, b)) <==> GoodSums(a, b)
  {
    var sum := Sum(a, b);
    forall denom: Bytes ensures Column(sum, denom) == SumOfColumns(a, b, denom) {
      SumColumn(a, b, denom);
    }
    if Valid(sum) {
      forall denom: Bytes ensures GoodColumn(SumOfColumns(a, b, denom), denom) {
        ValidColumn(sum, denom);
      }
    }
    if GoodSums(a, b) {
      forall denom: Bytes ensures GoodColumn(Column(sum, denom), denom) {
        assert GoodColumn(SumOfColumns(a, b, denom), denom);
      }
      SumInOrder(a, b);
      GoodIsValid(sum);
    }
  }

  // ----- when a difference is negative -----

  lemma {:induction false} NonZeroMembers(x: seq<int>, v: int)
    ensures v in NonZero(x) <==> v in x && v != 0
  {
    if x != [] {
      NonZeroMembers(x[1..], v);
      assert x == [x[0]] + x[1..];
    }
  }

  lemma {:induction false} AddedAt(x: seq<int>, y: seq<int>, i: nat)
    ensures At(Added(x, y), i) == At(x, i) + At(y, i)
  {
    if x != [] && y != [] && i > 0 {
      AddedAt(x[1..], y[1..], i - 1);
    }
  }

  lemma {:induction false} NegativeColumn(coins: seq<Coin>, denom: Bytes, i: nat)
    ensures At(Column(Negative(coins), denom), i) == -At(Column(coins, denom), i)
  {
    if coins != [] {
      var n := Negative(coins);
      assert n[0] == Coin(coins[0].denom, -coins[0].amount) && n[1..] == Negative(coins[1..]);
      if coins[0].denom != denom {
        NegativeColumn(coins[1..], denom, i);
      } else if i > 0 {
        NegativeColumn(coins[1..], denom, i - 1);
      }
    }
  }

  lemma {:induction false} InColumn(coins: seq<Coin>, i: nat)
    requires i < |coins|
    ensures coins[i].amount in Column(coins, coins[i].denom)
  {
    if i > 0 {
      InColumn(coins[1..], i - 1);
    }
  }

  lemma {:induction false} OfColumn(coins: seq<Coin>, denom: Bytes, v: int) returns (i: nat)
    requires v in Column(coins, denom)
    ensures i < |coins| && coins[i] == Coin(denom, v)
  {
    if coins[0] == Coin(denom, v) {
      i := 0;
    } else {
      i := OfColumn(coins[1..], denom, v);
      i := i + 1;
    }
  }

  /** Of some denomination, an amount in a is less than the one at its place in b. */
  ghost predicate LessSomewhere(a: seq<Coin>, b: seq<Coin>) {
    exists denom: Bytes, i: nat :: At(Column(a, denom), i) < At(Column(b, denom), i)
  }

  lemma DifferenceAt(a: seq<Coin>, b: seq<Coin>, denom: Bytes, i: nat)
    ensures At(Added(Column(a, denom), Column(Negative(b), denom)), i) ==
            At(Column(a, denom), i) - At(Column(b, denom), i)
  {
    AddedAt(Column(a, denom), Column(Negative(b), denom), i);
    NegativeColumn(b, denom, i);
  }

  lemma NegativeIsLess(a: seq<Coin>, b: seq<Coin>)
    requires Sorted(a) && Sorted(b) && AnyNegative(Difference(a, b))
    ensures LessSomewhere(a, b)
  {
    var diff := Difference(a, b);
    var k :| 0 <= k < |diff| && diff[k].amount < 0;
    var denom, v := diff[k].denom, diff[k].amount;
    var added := Added(Column(a, denom), Column(Negative(b), denom));
    SumColumn(a, Negative(b), denom);
    InColumn(diff, k);
    NonZeroMembers(added, v);
    var i :| 0 <= i < |added| && added[i] == v;
    DifferenceAt(a, b, denom, i);
    assert At(Column(a, denom), i) < At(Column(b, denom), i);
  }

  lemma LessIsNegative(a: seq<Coin>, b: seq<Coin>)
    requires Sorted(a) && Sorted(b) && LessSomewhere(a, b)
    ensures AnyNegative(Difference(a, b))
  {
    var denom: Bytes, i: nat :| At(Column(a, denom), i) < At(Column(b, denom), i);
    var added := Added(Column(a, denom), Column(Negative(b), denom));
    DifferenceAt(a, b, denom, i);
    NonZeroMembers(added, added[i]);
    SumColumn(a, Negative(b), denom);
    var k := OfColumn(Difference(a, b), denom, added[i]);
  }

  /** Exactly when SafeSub flags a negative, for all lists that it accepts. */
  lemma NegativeExactly(a: seq<Coin>, b: seq<Coin>)
    requires Sorted(a) && Sorted(b)
    ensures AnyNegative(Difference(a, b)) <==> LessSomewhere(a, b)
  {
    if AnyNegative(Difference(a, b)) {
      NegativeIsLess(a, b);
    }
    if LessSomewhere(a, b) {
      LessIsNegative(a, b);
    }
  }

  /** With a repeated denomination SafeSub flags a negative although no denomination falls short. */
  lemma FlaggedWithoutShortfall(denom: Bytes)
    ensures var a, b := [Coin(denom, 1), Coin(denom, 1)], [Coin(denom, 2)];
            Sorted(a) && Sorted(b) && AnyNegative(Difference(a, b)) && !FallsShort(a, b)
  {
    var one := [Coin(denom, 1)];
    var a, b := [Coin(denom, 1), Coin(denom, 1)], [Coin(denom, 2)];
    LessIrreflexive(denom);
    assert a[1..] == one && one[1..] == [] && b[1..] == [];
    assert Column(a, denom)[0] == 1 && Column(b, denom)[0] == 2;
    assert At(Column(a, denom), 0) < At(Column(b, denom), 0);
    LessIsNegative(a, b);
    forall d: Bytes ensures Total(a, d) >= Total(b, d) {
      assert Total(a, d) == (if denom == d then 1 else 0) + Total(one, d);
    }
  }

  // ----- the laws of addition -----

  /** Lists in order are determined by their columns. */
  lemma {:induction false} SameColumns(a: seq<Coin>, b: seq<Coin>)
    requires Sorted(a) && Sorted(b) && forall denom: Bytes :: Column(a, denom) == Column(b, denom)
    ensures a == b
    decreases |a|
  {
    ColumnOfFirst(a);
    ColumnOfFirst(b);
    if a != [] && b != [] {
      SameFirst(a, b);
      SortedTail(a);
      SortedTail(b);
      forall denom: Bytes ensures Column(a[1..], denom) == Column(b[1..], denom) {
        assert Column(a, denom) == Column(b, denom);
        if denom == a[0].denom {
          assert Column(a, denom)[1..] == Column(a[1..], denom) && Column(b, denom)[1..] == Column(b[1..], denom);
        }
      }
      SameColumns(a[1..], b[1..]);
      assert a == [a[0]] + a[1..] && b == [b[0]] + b[1..];
    }
  }

  lemma ColumnOfFirst(coins: seq<Coin>)
    ensures coins == [] || Column(coins, coins[0].denom) != []
  {
  }

  lemma SameFirst(a: seq<Coin>, b: seq<Coin>)
    requires Sorted(a) && Sorted(b) && a != [] && b != []
    requires forall denom: Bytes :: Column(a, denom) == Column(b, denom)
    ensures a[0] == b[0]
  {
    var da, db := a[0].denom, b[0].denom;
    assert Column(a, da) == [a[0].amount] + Column(a[1..], da) && Column(a, da) == Column(b, da);
    assert Column(b, db) == [b[0].amount] + Column(b[1..], db) && Column(a, db) == Column(b, db);
    LessTotal(da, db);
    NotBelow(a, db);
    NotBelow(b, da);
    assert Column(a, da)[0] == Column(b, da)[0];
  }

  /** A denomination with a column is not below the first. */
  lemma NotBelow(coins: seq<Coin>, denom: Bytes)
    requires Sorted(coins) && coins != [] && Column(coins, denom) != []
    ensures !Less(denom, coins[0].denom)
  {
    if Less(denom, coins[0].denom) {
      SortedAbove(coins, denom);
      NoColumn(coins, denom);
    }
  }

  lemma {:induction false} AddedCommutes(x: seq<int>, y: seq<int>)
    ensures Added(x, y) == Added(y, x)
  {
    if x != [] && y != [] {
      AddedCommutes(x[1..], y[1..]);
    }
  }

  /** Addition is commutative on all lists that it accepts. */
  lemma SumCommutes(a: seq<Coin>, b: seq<Coin>)
    requires Sorted(a) && Sorted(b)
    ensures Sum(a, b) == Sum(b, a)
  {
    SumInOrder(a, b);
    SumInOrder(b, a);
    forall denom: Bytes ensures Column(Sum(a, b), denom) == Column(Sum(b, a), denom) {
      SumColumn(a, b, denom);
      SumColumn(b, a, denom);
      AddedCommutes(Column(a, denom), Column(b, denom));
    }
    SameColumns(Sum(a, b), Sum(b, a));
  }

  /** Adding three columns in one order gives what it gives in the other. */
  predicate ColumnAssociates(x: seq<int>, y: seq<int>, z: seq<int>) {
    NonZero(Added(NonZero(Added(x, y)), z)) == NonZero(Added(x, NonZero(Added(y, z))))
  }

  lemma SumOfThree(a: seq<Coin>, b: seq<Coin>, c: seq<Coin>, denom: Bytes)
    requires Sorted(a) && Sorted(b) && Sorted(c)
    ensures Column(Sum(Sum(a, b), c), denom) == Column(Sum(a, Sum(b, c)), denom) <==>
            ColumnAssociates(Column(a, denom), Column(b, denom), Column(c, denom))
  {
    SumInOrder(a, b);
    SumInOrder(b, c);
    SumColumn(a, b, denom);
    SumColumn(b, c, denom);
    SumColumn(Sum(a, b), c, denom);
    SumColumn(a, Sum(b, c), denom);
  }

  ghost predicate ColumnsAssociate(a: seq<Coin>, b: seq<Coin>, c: seq<Coin>) {
    forall denom: Bytes :: ColumnAssociates(Column(a, denom), Column(b, denom), Column(c, denom))
  }

  /** Addition associates exactly on the lists of which every column does. */
  lemma SumAssociatesExactly(a: seq<Coin>, b: seq<Coin>, c: seq<Coin>)
    requires Sorted(a) && Sorted(b) && Sorted(c)
    ensures Sum(Sum(a, b), c) == Sum(a, Sum(b, c)) <==> ColumnsAssociate(a, b, c)
  {
    var left, right := Sum(Sum(a, b), c), Sum(a, Sum(b, c));
    if left == right {
      forall denom: Bytes ensures ColumnAssociates(Column(a, denom), Column(b, denom), Column(c, denom)) {
        SumOfThree(a, b, c, denom);
      }
    }
    if ColumnsAssociate(a, b, c) {
      forall denom: Bytes ensures Column(left, denom) == Column(right, denom) {
        SumOfThree(a, b, c, denom);
        assert ColumnAssociates(Column(a, denom), Column(b, denom), Column(c, denom));
      }
      InOrderOfThree(a, b, c);
      SameColumns(left, right);
    }
  }

  lemma InOrderOfThree(a: seq<Coin>, b: seq<Coin>, c: seq<Coin>)
    requires Sorted(a) && Sorted(b) && Sorted(c)
    ensures Sorted(Sum(Sum(a, b), c)) && Sorted(Sum(a, Sum(b, c)))
  {
    SumInOrder(a, b);
    SumInOrder(b, c);
    SumInOrder(Sum(a, b), c);
    SumInOrder(a, Sum(b, c));
  }

  /** Behind a zero there are only zeros, so that dropping them moves nothing. */
  predicate NoGaps(x: seq<int>) {
    forall i, j :: 0 <= i < j < |x| && x[i] == 0 ==> x[j] == 0
  }

  lemma {:induction false} NoneLeft(x: seq<int>)
    requires forall i :: 0 <= i < |x| ==> x[i] == 0
    ensures NonZero(x) == []
  {
    if x != [] {
      NoneLeft(x[1..]);
    }
  }

  lemma {:induction false} NothingMoves(x: seq<int>, i: nat)
    requires NoGaps(x)
    ensures At(NonZero(x), i) == At(x, i)
  {
    if x != [] {
      if x[0] == 0 {
        NoneLeft(x);
      } else if i > 0 {
        NothingMoves(x[1..], i - 1);
      }
    }
  }

  /** Columns that differ in zeros at the end only are the same without zeros. */
  lemma {:induction false} SameNumbers(x: seq<int>, y: seq<int>)
    requires forall i: nat :: At(x, i) == At(y, i)
    ensures NonZero(x) == NonZero(y)
    decreases |x| + |y|
  {
    if x == [] {
      forall i | 0 <= i < |y| ensures y[i] == 0 { assert At(x, i) == At(y, i); }
      NoneLeft(y);
    } else if y == [] {
      forall i | 0 <= i < |x| ensures x[i] == 0 { assert At(x, i) == At(y, i); }
      NoneLeft(x);
    } else {
      assert At(x, 0) == At(y, 0);
      forall i: nat ensures At(x[1..], i) == At(y[1..], i) { assert At(x, i + 1) == At(y, i + 1); }
      SameNumbers(x[1..], y[1..]);
    }
  }

  lemma GaplessAssociates(x: seq<int>, y: seq<int>, z: seq<int>)
    requires NoGaps(Added(x, y)) && NoGaps(Added(y, z))
    ensures ColumnAssociates(x, y, z)
  {
    var xy, yz := NonZero(Added(x, y)), NonZero(Added(y, z));
    forall i: nat ensures At(Added(xy, z), i) == At(Added(x, yz), i) {
      AddedAt(x, y, i);
      AddedAt(y, z, i);
      NothingMoves(Added(x, y), i);
      NothingMoves(Added(y, z), i);
      AddedAt(xy, z, i);
      AddedAt(x, yz, i);
    }
    SameNumbers(Added(xy, z), Added(x, yz));
  }

  /** Addition associates where neither of the two inner sums drops a zero in front of an amount. */
  lemma SumAssociatesWithoutGaps(a: seq<Coin>, b: seq<Coin>, c: seq<Coin>)
    requires Sorted(a) && Sorted(b) && Sorted(c)
    requires forall denom: Bytes :: NoGaps(Added(Column(a, denom), Column(b, denom)))
    requires forall denom: Bytes :: NoGaps(Added(Column(b, denom), Column(c, denom)))
    ensures Sum(Sum(a, b), c) == Sum(a, Sum(b, c))
  {
    forall denom: Bytes ensures ColumnAssociates(Column(a, denom), Column(b, denom), Column(c, denom)) {
      GaplessAssociates(Column(a, denom), Column(b, denom), Column(c, denom));
    }
    SumAssociatesExactly(a, b, c);
  }

  /** With a repeated denomination addition need not associate. */
  lemma SumDoesNotAssociate(denom: Bytes)
    ensures var a, b, c := [Coin(denom, 1), Coin(denom, 1)], [Coin(denom, -1)], [Coin(denom, 1)];
            Sorted(a) && Sorted(b) && Sorted(c) && Sum(Sum(a, b), c) != Sum(a, Sum(b, c))
  {
    var one := [Coin(denom, 1)];
    var a, b := [Coin(denom, 1), Coin(denom, 1)], [Coin(denom, -1)];
    LessIrreflexive(denom);
    assert a[1..] == one && one[1..] == [] && b[1..] == [];
    WithoutZerosOf(one);
    assert [] + one == one;
    assert Sum(a, b) == one;
    assert Sum(one, one) == [Coin(denom, 2)];
    assert Sum(b, one) == [];
    assert Sum(a, []) == a by { WithoutZerosOf(a); }
  }
}
