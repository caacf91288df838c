/** `remove_duplicates_and_fill`: turns one predicted row into a game, a sorted list of
    distinct numbers, drawing fresh numbers in [1,45] until six are held. */
module Fill {
  import opened Seqs

  /** Numbers in a game (the loop runs while fewer than six are held). */
  const GameSize := 6
  /** `np.random.randint(1, 46)` is half-open: draws lie in [Lowest, Highest]. */
  const Lowest := 1
  const Highest := 45

  predicate InRange(x: int) {
    Lowest <= x <= Highest
  }

  /** `list(set(s))`: each value of `s` once. Python leaves the order of a set's elements
      unspecified; this keeps each value's last occurrence, and as the caller sorts the list
      afterwards the choice of order does not show in the result. */
  function Dedup(s: seq<int>): (r: seq<int>)
    ensures Distinct(r)
    ensures Elems(r) == Elems(s)
  {
    if |s| == 0 then []
    else
      var rest := Dedup(s[1..]);
      assert Elems(s) == {s[0]} + Elems(s[1..]);
      if s[0] in s[1..] then rest
      else
        assert s[0] !in Elems(rest);
        [s[0]] + rest
  }

  /** What a game drawn from `row` is: sorted ascending without repeats, holding every value
      of the row, as long as six or the number of distinct values of the row, whichever is
      more, and every value not taken from the row is a fresh draw in [1,45]. */
  predicate IsFillOf(row: seq<int>, game: seq<int>) {
    && StrictlyAscending(game)
    && Elems(row) <= Elems(game)
    && |game| == Max(GameSize, |Elems(row)|)
    && forall x :: x in game && x !in row ==> InRange(x)
  }

  /** While fewer than six distinct values are held, some number in [1,45] is not held yet,
      so a draw can always succeed and the fill loop cannot starve. */
  lemma FreshDrawExists(held: seq<int>)
    requires Distinct(held)
    requires |held| < GameSize
    ensures exists n :: InRange(n) && n !in held
  {
    var small := {1, 2, 3, 4, 5, 6};
    ElemsCard(held);
    if small <= Elems(held) {
      SubsetCard(small, Elems(held));
      assert false;
    }
    var n :| n in small && n !in Elems(held);
    assert InRange(n);
  }

  /** The draws of `np.random.randint` are a nondeterministic choice of a number in [1,45];
      only the draws the loop accepts are modelled, since a rejected draw (one already held)
      leaves `unique` as it was. */
  method RemoveDuplicatesAndFill(predicted: seq<int>) returns (game: seq<int>)
    ensures IsFillOf(predicted, game)
  {
    var unique := Dedup(predicted);
    ElemsCard(unique);
    assert forall x :: x in unique ==> x in Elems(unique);
    while |unique| < GameSize
      invariant Distinct(unique)
      invariant Elems(predicted) <= Elems(unique)
      invariant |Elems(predicted)| <= |unique|
      invariant |unique| == |Elems(predicted)| || |unique| <= GameSize
      invariant forall x :: x in unique && x !in predicted ==> InRange(x)
      decreases GameSize - |unique|
    {
      FreshDrawExists(unique);
      var draw :| InRange(draw) && draw !in unique;
      unique := unique + [draw];
    }
    SortDistinct(unique);
    game := Sort(unique);
    assert forall x :: x in game ==> x in Elems(game);
    assert forall x :: x in Elems(unique) ==> x in unique;
  }

  /** A row of at most six numbers (the model predicts exactly six) always gives a game of
      exactly six numbers. */
  lemma FillOfShortRow(row: seq<int>, game: seq<int>)
    requires IsFillOf(row, game)
    requires |row| <= GameSize
    ensures |game| == GameSize
  {
    ElemsCard(row);
  }

  /** When every value of the row is in [1,45], so is every value of the game. */
  lemma FillInRange(row: seq<int>, game: seq<int>)
    requires IsFillOf(row, game)
    requires forall i :: 0 <= i < |row| ==> InRange(row[i])
    ensures forall i :: 0 <= i < |game| ==> InRange(game[i])
  {
  }

  /** A row that already holds `GameSize` distinct values in [1,45] comes back as its own
      values, sorted: nothing is drawn. */
  lemma FillOfCompleteRow(row: seq<int>, game: seq<int>)
    requires IsFillOf(row, game)
    requires Distinct(row) && |row| == GameSize
    ensures Elems(game) == Elems(row)
  {
    ElemsCard(row);
    ElemsCard(game);
    assert Elems(game) == Elems(row) + (Elems(game) - Elems(row));
  }
}
