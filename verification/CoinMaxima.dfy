/** Maximum and minimum on every list that is in order: coins of one denomination are paired position by position. */
module CoinMaxima {
  import opened Basics
  import opened ByteOrder
  import opened Coins
  import opened CoinColumns
  import opened CoinLattice

  /** The larger of two amounts at each position; the longer column goes on alone. */
  function Maxima(x: seq<int>, y: seq<int>): seq<int> {
    if x == [] then y else if y == [] then x else [MaxOf(x[0], y[0])] + Maxima(x[1..], y[1..])
  }

  /** The smaller of two amounts at each position that both columns have. */
  function Minima(x: seq<int>, y: seq<int>): seq<int> {
    if x == [] || y == [] then [] else [MinOf(x[0], y[0])] + Minima(x[1..], y[1..])
  }

  lemma ColumnPut(coin: Coin, rest: seq<Coin>, denom: Bytes)
    ensures Column([coin] + rest, denom) == (if coin.denom == denom then [coin.amount] else []) + Column(rest, denom)
  {
    assert ([coin] + rest)[1..] == rest;
  }

  lemma MaximaAlone(x: seq<int>)
    requires x != []
    ensures Maxima(x, []) == [x[0]] + Maxima(x[1..], [])
  {
    assert x == [x[0]] + x[1..];
  }

  /** For all lists in order: of each denomination Max has the larger amount at each position. */
  lemma {:induction false} MaxColumn(a: seq<Coin>, b: seq<Coin>, denom: Bytes)
    requires Sorted(a) && Sorted(b)
    ensures Column(MaxMerge(a, b), denom) == Maxima(Column(a, denom), Column(b, denom))
    decreases |a| + |b|
  {
    if a != [] && b != [] {
      SortedTail(a);
      SortedTail(b);
      LessTotal(a[0].denom, b[0].denom);
      if Less(a[0].denom, b[0].denom) {
        MaxColumn(a[1..], b, denom);
        ColumnPut(a[0], MaxMerge(a[1..], b), denom);
        if a[0].denom == denom {
          SortedAbove(b, denom);
          NoColumn(b, denom);
          MaximaAlone(Column(a, denom));
        }
      } else if a[0].denom == b[0].denom {
        MaxColumn(a[1..], b[1..], denom);
        ColumnPut(Larger(a[0], b[0]), MaxMerge(a[1..], b[1..]), denom);
      } else {
        MaxColumn(a, b[1..], denom);
        ColumnPut(b[0], MaxMerge(a, b[1..]), denom);
        if b[0].denom == denom {
          SortedAbove(a, denom);
          NoColumn(a, denom);
        }
      }
    }
  }

  /** Min has the smaller one where both have one, without the zeros. */
  lemma {:induction false} MinColumn(a: seq<Coin>, b: seq<Coin>, denom: Bytes)
    requires Sorted(a) && Sorted(b)
    ensures Column(MinMerge(a, b), denom) == NonZero(Minima(Column(a, denom), Column(b, denom)))
    decreases |a| + |b|
  {
    if a != [] && b != [] {
      SortedTail(a);
      SortedTail(b);
      LessTotal(a[0].denom, b[0].denom);
      if Less(a[0].denom, b[0].denom) {
        MinColumn(a[1..], b, denom);
        if a[0].denom == denom {
          SortedAbove(b, denom);
          NoColumn(b, denom);
        }
      } else if a[0].denom == b[0].denom {
        MinColumn(a[1..], b[1..], denom);
        ColumnFirst(Smaller(a[0], b[0]), MinMerge(a[1..], b[1..]), denom);
        if a[0].denom == denom {
          NonZeroFirst(MinOf(a[0].amount, b[0].amount), Minima(Column(a[1..], denom), Column(b[1..], denom)));
        }
      } else {
        MinColumn(a, b[1..], denom);
        if b[0].denom == denom {
          SortedAbove(a, denom);
          NoColumn(a, denom);
        }
      }
    }
  }
}
