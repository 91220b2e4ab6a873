/** Which coins of a Bitcoin address a transfer spends: maturity filter, sort, greedy selection. */
module CoinSelection {
  import opened Domain

  type Script = Bytes

  datatype Utxo = Utxo(txid: string, vout: nat, satoshis: Int64, script: Script, coinbase: bool, height: int)

  const COINBASE_MATURITY := 100

  function Sum(coins: seq<Utxo>): int {
    if coins == [] then 0 else Sum(coins[..|coins| - 1]) + coins[|coins| - 1].satoshis
  }

  // ----- Maturity ----------------------------------------------------------------------------

  /** A coinbase coin may be spent in the block after `tip` once that block is 100 above its own. */
  predicate Spendable(u: Utxo, tip: int) {
    u.coinbase ==> (tip + 1) - u.height >= COINBASE_MATURITY
  }

  function Mature(coins: seq<Utxo>, tip: int): seq<Utxo> {
    if coins == [] then []
    else
      var rest := Mature(coins[..|coins| - 1], tip);
      if Spendable(coins[|coins| - 1], tip) then rest + [coins[|coins| - 1]] else rest
  }

  /** The positions of the spendable coins. */
  function SpendablePositions(coins: seq<Utxo>, tip: int): seq<nat> {
    if coins == [] then []
    else
      var rest := SpendablePositions(coins[..|coins| - 1], tip);
      if Spendable(coins[|coins| - 1], tip) then rest + [|coins| - 1] else rest
  }

  /** `Mature` keeps exactly the spendable positions, each once and in order. */
  lemma {:induction false} MatureKeepsOrder(coins: seq<Utxo>, tip: int)
    ensures var kept := SpendablePositions(coins, tip);
            && |kept| == |Mature(coins, tip)|
            && (forall j, k | 0 <= j < k < |kept| :: kept[j] < kept[k])
            && (forall k | 0 <= k < |kept| :: kept[k] < |coins| && Mature(coins, tip)[k] == coins[kept[k]])
  {
    if coins != [] {
      MatureKeepsOrder(coins[..|coins| - 1], tip);
    }
  }

  lemma {:induction false} PositionsAreTheSpendable(coins: seq<Utxo>, tip: int, i: nat)
    ensures i in SpendablePositions(coins, tip) <==> i < |coins| && Spendable(coins[i], tip)
  {
    if coins != [] {
      PositionsAreTheSpendable(coins[..|coins| - 1], tip, i);
    }
  }

  /** Only a coinbase coin can be held back: one of block h is kept at head t exactly from t = h + 99 on. */
  lemma CoinbaseIsKeptExactlyFrom99(coins: seq<Utxo>, tip: int, i: nat)
    ensures i in SpendablePositions(coins, tip)
            <==> i < |coins| && (coins[i].coinbase ==> tip >= coins[i].height + 99)
  {
    PositionsAreTheSpendable(coins, tip, i);
  }

  /**
   * Compacts the array it is reading: the first n places become the spendable coins in their order, the places
   * behind keep what they held.
   */
  method KeepSpendable(a: array<Utxo>, tip: int) returns (n: nat)
    modifies a
    ensures n <= a.Length
    ensures a[..n] == Mature(old(a[..]), tip)
    ensures a[n..] == old(a[n..])
  {
    n := 0;
    for i := 0 to a.Length
      invariant n <= i
      invariant a[..n] == Mature(old(a[..i]), tip)
      invariant a[n..] == old(a[n..])
    {
      var u := a[i];
      assert u == old(a[i]) by {
        assert a[i] == a[n..][i - n];
      }
      assert old(a[..i + 1])[..i] == old(a[..i]);
      if u.coinbase && tip - u.height < COINBASE_MATURITY - 1 {
        continue;
      }
      ghost var rest := a[n + 1..];
      assert rest == a[n..][1..] == old(a[n..])[1..] == old(a[n + 1..]);
      a[n] := u;
      assert a[n + 1..] == rest;
      n := n + 1;
    }
    assert old(a[..a.Length]) == old(a[..]);
  }

  // ----- Sorting and choosing ----------------------------------------------------------------

  predicate Descending(coins: seq<Utxo>) {
    forall i, j | 0 <= i < j < |coins| :: coins[i].satoshis >= coins[j].satoshis
  }

  /** Any descending arrangement of the first n places; nothing is promised about equal values. */
  method SortDescending(a: array<Utxo>, n: nat)
    requires n <= a.Length
    modifies a
    ensures Descending(a[..n])
    ensures multiset(a[..n]) == multiset(old(a[..n]))
    ensures a[n..] == old(a[n..])
  {
    for i := 0 to n
      invariant forall j, k | 0 <= j < i && j < k < n :: a[j].satoshis >= a[k].satoshis
      invariant multiset(a[..n]) == multiset(old(a[..n]))
      invariant a[n..] == old(a[n..])
    {
      var largest := i;
      for j := i + 1 to n
        invariant i <= largest < n
        invariant forall k | i <= k < j :: a[largest].satoshis >= a[k].satoshis
      {
        if a[j].satoshis > a[largest].satoshis {
          largest := j;
        }
      }
      SwapPlaces(a, i, largest, n);
    }
  }

  method SwapPlaces(a: array<Utxo>, i: nat, j: nat, n: nat)
    requires i <= j < n <= a.Length
    modifies a
    ensures a[i] == old(a[j]) && a[j] == old(a[i])
    ensures forall k | 0 <= k < a.Length && k != i && k != j :: a[k] == old(a[k])
    ensures multiset(a[..n]) == multiset(old(a[..n]))
    ensures a[n..] == old(a[n..])
  {
    ghost var before := a[..n];
    a[i], a[j] := a[j], a[i];
    assert a[..n] == before[i := before[j]][j := before[i]];
  }

  /** The greedy choice from descending coins: the shortest non-empty prefix that covers `need`. */
  ghost predicate Chosen(coins: seq<Utxo>, need: int, k: nat) {
    && 1 <= k <= |coins|
    && Sum(coins[..k]) >= need
    && forall j | 1 <= j < k :: Sum(coins[..j]) < need
  }

  ghost predicate NeverCovered(coins: seq<Utxo>, need: int) {
    forall j | 1 <= j <= |coins| :: Sum(coins[..j]) < need
  }

  /** A way of spending some of the coins, each at most as often as it is there. */
  ghost predicate Covers(coins: seq<Utxo>, some: seq<Utxo>, need: int) {
    multiset(some) <= multiset(coins) && Sum(some) >= need
  }

  /** Nothing smaller covers, and nothing of the same size is worth more. */
  ghost predicate Smallest(coins: seq<Utxo>, selected: seq<Utxo>, need: int) {
    && Covers(coins, selected, need)
    && forall some | Covers(coins, some, need) ::
         |selected| <= |some| && (|selected| == |some| ==> Sum(some) <= Sum(selected))
  }

  /** Leaving out any one chosen coin drops the total below the need. */
  ghost predicate Irredundant(selected: seq<Utxo>, need: int) {
    forall i | 0 <= i < |selected| :: Sum(selected) - selected[i].satoshis < need
  }

  lemma {:induction false} SumAppend(a: seq<Utxo>, b: seq<Utxo>)
    ensures Sum(a + b) == Sum(a) + Sum(b)
  {
    if b == [] {
      assert a + b == a;
    } else {
      SumAppend(a, b[..|b| - 1]);
      assert (a + b)[..|a + b| - 1] == a + b[..|b| - 1];
    }
  }

  function Without(coins: seq<Utxo>, i: nat): seq<Utxo>
    requires i < |coins|
  {
    coins[..i] + coins[i + 1..]
  }

  lemma SumRemove(coins: seq<Utxo>, i: nat)
    requires i < |coins|
    ensures Sum(coins) == Sum(Without(coins, i)) + coins[i].satoshis
    ensures multiset(Without(coins, i)) == multiset(coins) - multiset{coins[i]}
  {
    var head, tail := coins[..i], coins[i + 1..];
    SplitAt(coins, i);
    SumAppend(head, [coins[i]] + tail);
    SumCons(coins[i], tail);
    SumAppend(head, tail);
  }

  lemma SplitAt(coins: seq<Utxo>, i: nat)
    requires i < |coins|
    ensures coins == coins[..i] + ([coins[i]] + coins[i + 1..])
    ensures multiset(Without(coins, i)) == multiset(coins) - multiset{coins[i]}
  {
    assert coins == coins[..i] + ([coins[i]] + coins[i + 1..]);
  }

  lemma SumCons(u: Utxo, coins: seq<Utxo>)
    ensures Sum([u] + coins) == u.satoshis + Sum(coins)
  {
    SumAppend([u], coins);
    assert [u][..0] == [];
  }

  /** Exchange argument: k of the coins are together worth at most the k largest. */
  lemma {:induction false} LargestAreWorthMost(coins: seq<Utxo>, some: seq<Utxo>)
    requires Descending(coins) && multiset(some) <= multiset(coins)
    ensures |some| <= |coins| && Sum(some) <= Sum(coins[..|some|])
    decreases |some|
  {
    if some == [] {
      assert coins[..0] == [];
    } else {
      var rest := coins[1..];
      var i := ExchangeableCoin(coins, some);
      LargestAreWorthMost(rest, Without(some, i));
      SumRemove(some, i);
      FirstOfTop(coins, |some|);
    }
  }

  lemma FirstOfTop(coins: seq<Utxo>, k: nat)
    requires 1 <= k <= |coins|
    ensures Sum(coins[..k]) == coins[0].satoshis + Sum(coins[1..][..k - 1])
  {
    SumCons(coins[0], coins[1..][..k - 1]);
    assert coins[..k] == [coins[0]] + coins[1..][..k - 1];
  }

  /** A coin that can be set against the largest one: the largest itself where it is used, else any other. */
  lemma ExchangeableCoin(coins: seq<Utxo>, some: seq<Utxo>) returns (i: nat)
    requires Descending(coins) && multiset(some) <= multiset(coins) && some != []
    ensures i < |some| && coins != [] && some[i].satoshis <= coins[0].satoshis
    ensures multiset(Without(some, i)) <= multiset(coins[1..])
  {
    assert some[0] in multiset(coins);
    assert coins == [coins[0]] + coins[1..];
    i := 0;
    if coins[0] in some {
      i :| i < |some| && some[i] == coins[0];
    }
    SumRemove(some, i);
    assert some[i] in multiset(coins);
    forall u
      ensures multiset(Without(some, i))[u] <= multiset(coins[1..])[u]
    {
      assert multiset(some)[u] <= multiset(coins)[u];
      if u == coins[0] && u !in some {
        assert multiset(some)[u] == 0;
      }
    }
  }

  /** With a positive need the greedy choice is a smallest covering selection, of the largest value for its size. */
  lemma ChosenIsSmallest(coins: seq<Utxo>, need: int, k: nat)
    requires Descending(coins) && Chosen(coins, need, k) && need > 0
    ensures Smallest(coins, coins[..k], need)
  {
    assert coins == coins[..k] + coins[k..];
    forall some | Covers(coins, some, need)
      ensures k <= |some| && (k == |some| ==> Sum(some) <= Sum(coins[..k]))
    {
      LargestAreWorthMost(coins, some);
      assert |some| == 0 ==> some == [];
    }
  }

  lemma ChosenIsIrredundant(coins: seq<Utxo>, need: int, k: nat)
    requires Descending(coins) && Chosen(coins, need, k) && need > 0
    ensures Irredundant(coins[..k], need)
  {
    forall i | 0 <= i < k
      ensures Sum(coins[..k]) - coins[i].satoshis < need
    {
      assert coins[..k][..k - 1] == coins[..k - 1];
      if k == 1 {
        assert coins[..0] == [];
      }
    }
  }

  /** A need that is not positive is covered by nothing at all, so there the choice of one coin is not smallest. */
  lemma ChosenIsSmallestExactlyForPositiveNeed(coins: seq<Utxo>, need: int, k: nat)
    requires Descending(coins) && Chosen(coins, need, k)
    ensures Smallest(coins, coins[..k], need) <==> need > 0
  {
    if need > 0 {
      ChosenIsSmallest(coins, need, k);
    } else {
      assert Covers(coins, [], need);
    }
  }

  /** When the greedy choice finds nothing, no selection at all covers a positive need. */
  lemma NoneCoversWhenNeverCovered(coins: seq<Utxo>, need: int)
    requires Descending(coins) && NeverCovered(coins, need) && need > 0
    ensures !exists some :: Covers(coins, some, need)
  {
    forall some | multiset(some) <= multiset(coins)
      ensures Sum(some) < need
    {
      LargestAreWorthMost(coins, some);
      assert |some| == 0 ==> some == [];
    }
  }

  // ----- 64-bit totals -----------------------------------------------------------------------

  /** No value is negative and the total is a 64-bit number, as it is for all the money there can be. */
  ghost predicate Fits(coins: seq<Utxo>) {
    (forall u | u in coins :: 0 <= u.satoshis) && Sum(coins) < TWO_TO_THE_63
  }

  lemma {:induction false} PartialSums(coins: seq<Utxo>, k: nat)
    requires k <= |coins| && forall u | u in coins :: 0 <= u.satoshis
    ensures 0 <= Sum(coins[..k]) <= Sum(coins)
  {
    if k < |coins| {
      PartialSums(coins[..|coins| - 1], k);
      assert coins[..|coins| - 1][..k] == coins[..k];
    } else {
      assert coins[..k] == coins;
      if k > 0 {
        PartialSums(coins[..k - 1], k - 1);
        assert coins[..k - 1][..k - 1] == coins[..k - 1];
      }
    }
  }

  lemma {:induction false} SumOfPermutation(a: seq<Utxo>, b: seq<Utxo>)
    requires multiset(a) == multiset(b)
    ensures Sum(a) == Sum(b)
    decreases |a|
  {
    assert |multiset(a)| == |a| && |multiset(b)| == |b|;
    if a != [] {
      assert a[0] in multiset(b);
      var i :| 0 <= i < |b| && b[i] == a[0];
      SumRemove(a, 0);
      SumRemove(b, i);
      SumOfPermutation(Without(a, 0), Without(b, i));
    }
  }

  /** Wrapping early or late makes no difference to a sum. */
  lemma WrappedSum(a: int, b: int)
    ensures ToInt64(ToInt64(a) + b) == ToInt64(a + b)
  {
  }

  /** A selection from the coins that covers the need and, if the need is positive, could not be improved. */
  ghost predicate GoodSelection(coins: seq<Utxo>, selected: seq<Utxo>, need: int) {
    && Covers(coins, selected, need)
    && selected != []
    && (need > 0 ==> Smallest(coins, selected, need) && Irredundant(selected, need))
  }

  /** Some selection covers the need; when the need is not positive, there must at least be a coin to take. */
  ghost predicate Payable(coins: seq<Utxo>, need: int) {
    if need > 0 then exists some :: Covers(coins, some, need) else coins != []
  }

  /** The loop's choice in 64-bit arithmetic: the shortest non-empty prefix whose wrapped total reaches the need. */
  ghost predicate Reaches(coins: seq<Utxo>, need: int, k: nat) {
    && 1 <= k <= |coins|
    && ToInt64(Sum(coins[..k])) >= need
    && forall j | 1 <= j < k :: ToInt64(Sum(coins[..j])) < need
  }

  ghost predicate NeverReaches(coins: seq<Utxo>, need: int) {
    forall j | 1 <= j <= |coins| :: ToInt64(Sum(coins[..j])) < need
  }

  ghost predicate IsSortedForm(coins: seq<Utxo>, sorted: seq<Utxo>) {
    multiset(sorted) == multiset(coins) && Descending(sorted)
  }

  /** The selection is that prefix of the coins, sorted by descending value ... */
  ghost predicate TakesFirst(coins: seq<Utxo>, selected: seq<Utxo>, need: int) {
    exists sorted :: IsSortedForm(coins, sorted) && |selected| <= |sorted| && selected == sorted[..|selected|]
                     && Reaches(sorted, need, |selected|)
  }

  /** ... and there is none when no such prefix reaches the need. */
  ghost predicate Refused(coins: seq<Utxo>, need: int) {
    exists sorted :: IsSortedForm(coins, sorted) && NeverReaches(sorted, need)
  }

  /**
   * Sorts the first n places and takes coins from the front. `total` is the selected value in 64-bit arithmetic. On
   * coins that fit, no partial sum wraps, failure means that no selection covers the need, and for a positive need the
   * selection is smallest and irredundant.
   */
  method SelectUtxos(a: array<Utxo>, n: nat, need: Int64) returns (ok: bool, selected: seq<Utxo>, total: Int64)
    requires n <= a.Length
    modifies a
    ensures multiset(a[..n]) == multiset(old(a[..n])) && a[n..] == old(a[n..])
    ensures if ok then TakesFirst(old(a[..n]), selected, need) else Refused(old(a[..n]), need)
    ensures ok ==> selected != [] && multiset(selected) <= multiset(old(a[..n]))
    ensures ok ==> total == ToInt64(Sum(selected)) >= need
    ensures !ok ==> selected == [] && total == 0
    ensures Fits(old(a[..n])) ==> (ok <==> Payable(old(a[..n]), need))
    ensures Fits(old(a[..n])) && ok ==> GoodSelection(old(a[..n]), selected, need) && total == Sum(selected)
  {
    ghost var coins := a[..n];
    SortDescending(a, n);
    ghost var sorted := a[..n];
    ok, selected, total := TakeFromFront(a, n, need);
    assert IsSortedForm(coins, sorted);
    if ok {
      assert sorted == selected + sorted[|selected|..];
    }
    if Fits(coins) {
      TakenFromFitting(coins, sorted, need, ok, |selected|);
    }
  }

  lemma TakenFromFitting(coins: seq<Utxo>, sorted: seq<Utxo>, need: int, ok: bool, k: nat)
    requires multiset(coins) == multiset(sorted) && Descending(sorted) && Fits(coins)
    requires if ok then Reaches(sorted, need, k) else NeverReaches(sorted, need)
    ensures ok <==> Payable(coins, need)
    ensures ok ==> GoodSelection(coins, sorted[..k], need) && ToInt64(Sum(sorted[..k])) == Sum(sorted[..k])
  {
    SortedFits(coins, sorted);
    if ok {
      FittingPrefix(sorted, k);
      ReachesIsChosen(sorted, need, k);
      SelectionFound(coins, sorted, need, k);
    } else {
      NeverReachesIsNeverCovered(sorted, need);
      SelectionFails(coins, sorted, need);
    }
  }

  /** The loop over the sorted coins. */
  method TakeFromFront(a: array<Utxo>, n: nat, need: Int64) returns (ok: bool, selected: seq<Utxo>, total: Int64)
    requires n <= a.Length
    ensures ok ==> |selected| <= n && selected == a[..n][..|selected|] && Reaches(a[..n], need, |selected|)
    ensures ok ==> total == ToInt64(Sum(selected))
    ensures !ok ==> selected == [] && total == 0 && NeverReaches(a[..n], need)
  {
    ghost var sorted := a[..n];
    selected, total := [], 0;
    for i := 0 to n
      invariant selected == sorted[..i] && total == ToInt64(Sum(selected))
      invariant forall j | 1 <= j <= i :: ToInt64(Sum(sorted[..j])) < need
    {
      assert a[i] == sorted[i];
      NextSum(sorted, i);
      selected := selected + [a[i]];
      total := ToInt64(total + a[i].satoshis);
      if total >= need {
        return true, selected, total;
      }
    }
    return false, [], 0;
  }

  lemma NextSum(sorted: seq<Utxo>, i: nat)
    requires i < |sorted|
    ensures sorted[..i + 1] == sorted[..i] + [sorted[i]]
    ensures ToInt64(Sum(sorted[..i + 1])) == ToInt64(ToInt64(Sum(sorted[..i])) + sorted[i].satoshis)
  {
    assert sorted[..i + 1][..i] == sorted[..i];
    WrappedSum(Sum(sorted[..i]), sorted[i].satoshis);
  }

  lemma FittingPrefix(coins: seq<Utxo>, k: nat)
    requires Fits(coins) && k <= |coins|
    ensures ToInt64(Sum(coins[..k])) == Sum(coins[..k])
  {
    PartialSums(coins, k);
  }

  lemma ReachesIsChosen(coins: seq<Utxo>, need: int, k: nat)
    requires Fits(coins) && Reaches(coins, need, k)
    ensures Chosen(coins, need, k)
  {
    forall j | 1 <= j <= k
      ensures ToInt64(Sum(coins[..j])) == Sum(coins[..j])
    {
      FittingPrefix(coins, j);
    }
  }

  lemma NeverReachesIsNeverCovered(coins: seq<Utxo>, need: int)
    requires Fits(coins) && NeverReaches(coins, need)
    ensures NeverCovered(coins, need)
  {
    forall j | 1 <= j <= |coins|
      ensures ToInt64(Sum(coins[..j])) == Sum(coins[..j])
    {
      FittingPrefix(coins, j);
    }
  }

  lemma SortedFits(coins: seq<Utxo>, sorted: seq<Utxo>)
    requires multiset(coins) == multiset(sorted) && Fits(coins)
    ensures Fits(sorted)
  {
    SumOfPermutation(coins, sorted);
    SameCoins(coins, sorted);
  }

  lemma SameCoins(coins: seq<Utxo>, sorted: seq<Utxo>)
    requires multiset(coins) == multiset(sorted) && forall u | u in coins :: 0 <= u.satoshis
    ensures |coins| == |sorted| && forall u | u in sorted :: 0 <= u.satoshis
  {
    assert |multiset(coins)| == |coins| && |multiset(sorted)| == |sorted|;
    forall u | u in sorted
      ensures 0 <= u.satoshis
    {
      assert u in multiset(coins);
    }
  }

  lemma SelectionFound(coins: seq<Utxo>, sorted: seq<Utxo>, need: int, k: nat)
    requires multiset(coins) == multiset(sorted) && Descending(sorted) && Chosen(sorted, need, k)
    ensures GoodSelection(coins, sorted[..k], need)
    ensures Payable(coins, need)
  {
    assert |multiset(coins)| == |coins| && |multiset(sorted)| == |sorted|;
    assert sorted == sorted[..k] + sorted[k..];
    if need > 0 {
      ChosenIsSmallest(sorted, need, k);
      ChosenIsIrredundant(sorted, need, k);
      assert forall some :: Covers(coins, some, need) <==> Covers(sorted, some, need);
    }
  }

  lemma FirstSum(coins: seq<Utxo>)
    requires coins != []
    ensures Sum(coins[..1]) == coins[0].satoshis && coins[0] in coins
  {
    assert coins[..1][..0] == [];
  }

  lemma SelectionFails(coins: seq<Utxo>, sorted: seq<Utxo>, need: int)
    requires multiset(coins) == multiset(sorted) && Descending(sorted) && NeverCovered(sorted, need)
    requires Fits(sorted)
    ensures !Payable(coins, need)
  {
    if need > 0 {
      NoneCoversWhenNeverCovered(sorted, need);
      assert forall some :: Covers(coins, some, need) <==> Covers(sorted, some, need);
    } else {
      assert |multiset(coins)| == |coins| && |multiset(sorted)| == |sorted|;
      assert sorted == [] by {
        if sorted != [] {
          FirstSum(sorted);
        }
      }
    }
  }

  /** For coins that fit some selection covers a positive need exactly when all of them together do. */
  lemma CoverableExactlyWhenTotalSuffices(coins: seq<Utxo>, need: int)
    requires Fits(coins)
    ensures (exists some :: Covers(coins, some, need)) <==> Sum(coins) >= need
  {
    if Sum(coins) >= need {
      assert Covers(coins, coins, need);
    }
    forall some | Covers(coins, some, need)
      ensures Sum(coins) >= need
    {
      SubsetIsWorthLess(coins, some);
    }
  }

  lemma {:induction false} SubsetIsWorthLess(coins: seq<Utxo>, some: seq<Utxo>)
    requires multiset(some) <= multiset(coins) && forall u | u in coins :: 0 <= u.satoshis
    ensures Sum(some) <= Sum(coins)
    decreases |some|
  {
    if some == [] {
      PartialSums(coins, 0);
    } else {
      var n := |some| - 1;
      assert some[n] in multiset(coins);
      var i :| 0 <= i < |coins| && coins[i] == some[n];
      SumRemove(coins, i);
      SumRemove(some, n);
      forall u | u in Without(coins, i)
        ensures 0 <= u.satoshis
      {
        assert u in coins;
      }
      SubsetIsWorthLess(Without(coins, i), Without(some, n));
    }
  }
}
