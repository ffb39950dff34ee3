/** A weighted outcome sampler for a turn-based combat game, and the two
    resolvers that pick the probability table it samples from.

    The random draw of the game (a number in [0, 100)) is an explicit
    parameter `r`; everything else is deterministic. */
module CombatOutcome {

  datatype Option<T> = None | Some(value: T)

  /** One (label, weight) pair of an outcome table. */
  datatype Entry = Entry(outcome: string, weight: real)

  /** An outcome table: its order is the tie-break order of the scan. */
  type Table = seq<Entry>

  /** The label returned when the scan runs past the last entry. */
  const Fallback: string := "default"

  /** The label a resolver returns for an unrecognised colour combination. */
  const Unknown: string := "unknown"

  // ---------------------------------------------------------------------
  // Specification of the sampler
  // ---------------------------------------------------------------------

  /** The sum of the weights of the first `i` entries, accumulated from the
      left as the scan does. */
  function PrefixSum(t: Table, i: nat): real
    requires i <= |t|
  {
    if i == 0 then 0.0 else PrefixSum(t, i - 1) + t[i - 1].weight
  }

  /** The sum of all weights of the table. */
  function Total(t: Table): real {
    PrefixSum(t, |t|)
  }

  predicate NonNegative(t: Table) {
    forall i :: 0 <= i < |t| ==> t[i].weight >= 0.0
  }

  /** The labels that occur in the table. */
  function Labels(t: Table): set<string> {
    set i | 0 <= i < |t| :: t[i].outcome
  }

  /** Entry `k` is the first whose running sum reaches `r`: the draw is at
      most the sum through entry `k` and above every earlier running sum. */
  predicate IsFirstMatch(t: Table, r: real, k: nat) {
    k < |t| &&
    r <= PrefixSum(t, k + 1) &&
    forall j :: 1 <= j <= k ==> r > PrefixSum(t, j)
  }

  /** No running sum of the table reaches `r`. */
  predicate NoMatch(t: Table, r: real) {
    forall j :: 1 <= j <= |t| ==> r > PrefixSum(t, j)
  }

  /** Reference definition of the sampler, independent of the running sum:
      the draw falls in the first entry when it is at most that entry's
      weight; otherwise the first entry's weight is taken off the draw and
      the rest of the table is searched. Gives the index chosen, if any. */
  function Pick(t: Table, r: real): (p: Option<nat>)
    ensures p.Some? ==> p.value < |t|
  {
    if t == [] then None
    else if r <= t[0].weight then Some(0)
    else match Pick(t[1..], r - t[0].weight)
         case None => None
         case Some(k) => Some(k + 1)
  }

  /** The label the sampler returns for table `t` and draw `r`. */
  function Outcome(t: Table, r: real): string {
    match Pick(t, r)
    case None => Fallback
    case Some(k) => t[k].outcome
  }

  // ---------------------------------------------------------------------
  // The sampler
  // ---------------------------------------------------------------------

  /** Scans the table in order with a running sum of the weights and returns
      the first label whose running sum is at least the draw (the comparison
      is inclusive), or "default" when none is. */
  method GetOutcome(probabilities: Table, r: real) returns (outcome: string)
    ensures outcome == Outcome(probabilities, r)
  {
    var cumulative := 0.0;
    for i := 0 to |probabilities|
      invariant cumulative == PrefixSum(probabilities, i)
      invariant forall j :: 1 <= j <= i ==> r > PrefixSum(probabilities, j)
    {
      cumulative := cumulative + probabilities[i].weight;
      if r <= cumulative {
        PickIsFirstMatch(probabilities, r, i);
        return probabilities[i].outcome;
      }
    }
    PickNoneIsNoMatch(probabilities, r);
    return Fallback;
  }

  // ---------------------------------------------------------------------
  // Properties of the sampler
  // ---------------------------------------------------------------------

  /** Dropping the first entry shifts every running sum by its weight. */
  lemma {:induction false} PrefixSumTail(t: Table, j: nat)
    requires j < |t|
    ensures PrefixSum(t, j + 1) == t[0].weight + PrefixSum(t[1..], j)
  {
    if j > 0 {
      PrefixSumTail(t, j - 1);
      assert t[1..][j - 1] == t[j];
    }
  }

  /** The reference definition picks entry `k` exactly when `k` is the first
      entry whose running sum reaches the draw. */
  lemma {:induction false} PickIsFirstMatch(t: Table, r: real, k: nat)
    ensures Pick(t, r) == Some(k) <==> IsFirstMatch(t, r, k)
    decreases |t|
  {
    if t == [] {
    } else if r <= t[0].weight {
      PrefixSumTail(t, 0);
      assert !(r > PrefixSum(t, 1));
    } else {
      var u, s := t[1..], r - t[0].weight;
      PrefixSumTail(t, 0);
      if k == 0 {
        assert !IsFirstMatch(t, r, 0);
      } else {
        PickIsFirstMatch(u, s, k - 1);
        if k < |t| {
          PrefixSumTail(t, k);
          forall j | 1 <= j <= k
            ensures (r > PrefixSum(t, j)) == (j == 1 || s > PrefixSum(u, j - 1))
          {
            PrefixSumTail(t, j - 1);
          }
          assert IsFirstMatch(t, r, k) <==> IsFirstMatch(u, s, k - 1) by {
            if IsFirstMatch(u, s, k - 1) {
              forall j | 1 <= j <= k ensures r > PrefixSum(t, j) {
                if j > 1 { assert 1 <= j - 1 <= k - 1; }
              }
            }
            if IsFirstMatch(t, r, k) {
              forall j | 1 <= j <= k - 1 ensures s > PrefixSum(u, j) {
                PrefixSumTail(t, j);
              }
            }
          }
        }
      }
    }
  }

  /** The reference definition finds no entry exactly when no running sum
      reaches the draw. */
  lemma {:induction false} PickNoneIsNoMatch(t: Table, r: real)
    ensures Pick(t, r) == None <==> NoMatch(t, r)
    decreases |t|
  {
    if t == [] {
    } else if r <= t[0].weight {
      PrefixSumTail(t, 0);
      assert !(r > PrefixSum(t, 1));
    } else {
      var u, s := t[1..], r - t[0].weight;
      PickNoneIsNoMatch(u, s);
      PrefixSumTail(t, 0);
      forall j | 1 <= j <= |t|
        ensures (r > PrefixSum(t, j)) == (j == 1 || s > PrefixSum(u, j - 1))
      {
        PrefixSumTail(t, j - 1);
      }
      if NoMatch(u, s) {
        forall j | 1 <= j <= |t| ensures r > PrefixSum(t, j) {
          if j > 1 { assert 1 <= j - 1 <= |u|; }
        }
      }
      if NoMatch(t, r) {
        forall j | 1 <= j <= |u| ensures s > PrefixSum(u, j) {
          PrefixSumTail(t, j);
        }
      }
    }
  }

  /** The sampler returns a label of the table or the fallback, nothing else. */
  lemma OutcomeInTableOrDefault(t: Table, r: real)
    ensures Outcome(t, r) in Labels(t) || Outcome(t, r) == Fallback
  {
  }

  /** The comparison is inclusive: a draw equal to the first entry's weight
      selects the first entry. */
  lemma InclusiveBoundary(t: Table, r: real)
    requires |t| > 0 && r == t[0].weight
    ensures Pick(t, r) == Some(0) && Outcome(t, r) == t[0].outcome
  {
  }

  /** A larger draw never selects an earlier entry, and a draw that falls
      past every entry stays past them when it grows. */
  lemma {:induction false} PickMonotone(t: Table, r1: real, r2: real)
    requires r1 <= r2
    ensures Pick(t, r2).Some? ==> Pick(t, r1).Some? && Pick(t, r1).value <= Pick(t, r2).value
    ensures Pick(t, r1).None? ==> Pick(t, r2).None?
    decreases |t|
  {
    if t != [] && r1 > t[0].weight {
      PickMonotone(t[1..], r1 - t[0].weight, r2 - t[0].weight);
    }
  }

  lemma {:induction false} TotalNonNegative(t: Table)
    requires NonNegative(t)
    ensures Total(t) >= 0.0
    decreases |t|
  {
    if t != [] {
      PrefixSumTail(t, |t| - 1);
      TotalNonNegative(t[1..]);
    }
  }

  /** With non-negative weights the fallback is reached exactly when the
      table is empty or the draw exceeds the sum of all weights. */
  lemma {:induction false} FallbackIffBeyondTotal(t: Table, r: real)
    requires NonNegative(t)
    ensures Pick(t, r).None? <==> (t == [] || r > Total(t))
    decreases |t|
  {
    if t != [] {
      PrefixSumTail(t, |t| - 1);
      assert Total(t) == t[0].weight + Total(t[1..]);
      TotalNonNegative(t[1..]);
      if r > t[0].weight {
        FallbackIffBeyondTotal(t[1..], r - t[0].weight);
      }
    }
  }

  /** One step of the scan: the first entry is chosen when the draw is at
      most its weight, otherwise the rest of the table is searched with that
      weight taken off the draw. */
  lemma OutcomeCons(t: Table, r: real)
    requires t != []
    ensures Outcome(t, r) ==
      if r <= t[0].weight then t[0].outcome else Outcome(t[1..], r - t[0].weight)
  {
  }

  /** The outcome of a three-entry table, band by band of its running sums. */
  lemma {:induction false} OutcomeBands3(t: Table, r: real)
    requires |t| == 3
    ensures Outcome(t, r) ==
      if r <= t[0].weight then t[0].outcome
      else if r <= t[0].weight + t[1].weight then t[1].outcome
      else if r <= t[0].weight + t[1].weight + t[2].weight then t[2].outcome
      else Fallback
  {
    OutcomeCons(t, r);
    OutcomeCons(t[1..], r - t[0].weight);
    OutcomeCons(t[2..], r - t[0].weight - t[1].weight);
  }

  /** The outcome of a four-entry table, band by band of its running sums. */
  lemma {:induction false} OutcomeBands4(t: Table, r: real)
    requires |t| == 4
    ensures Outcome(t, r) ==
      if r <= t[0].weight then t[0].outcome
      else if r <= t[0].weight + t[1].weight then t[1].outcome
      else if r <= t[0].weight + t[1].weight + t[2].weight then t[2].outcome
      else if r <= t[0].weight + t[1].weight + t[2].weight + t[3].weight then t[3].outcome
      else Fallback
  {
    OutcomeCons(t, r);
    OutcomeBands3(t[1..], r - t[0].weight);
  }

  // ---------------------------------------------------------------------
  // The outcome tables
  // ---------------------------------------------------------------------

  const AttackOutcomeBlue: Table :=
    [Entry("successful", 50.0), Entry("glazed", 20.0), Entry("miss", 15.0), Entry("critical", 15.0)]

  const AttackOutcomeGreen: Table :=
    [Entry("miss", 50.0), Entry("glazed", 20.0), Entry("hit", 15.0), Entry("critical", 15.0)]

  const AttackOutcomeRed: Table :=
    [Entry("hit", 25.0), Entry("miss", 25.0), Entry("glazed", 25.0), Entry("critical", 25.0)]

  const DefenseOutcomeRedBlue: Table :=
    [Entry("block", 50.0), Entry("glazed_hit", 30.0), Entry("complete_hit", 20.0)]

  const DefenseOutcomeRedGreen: Table :=
    [Entry("complete_hit", 50.0), Entry("glazed_hit", 30.0), Entry("block", 20.0)]

  const DefenseOutcomeRedRed: Table :=
    [Entry("block", 33.0), Entry("glazed_hit", 33.0), Entry("complete_hit", 33.0)]

  /** Five of the tables cover the whole range of the draw; the red-red
      defense table covers only 99 of it. */
  lemma TableTotals()
    ensures Total(AttackOutcomeBlue) == 100.0
    ensures Total(AttackOutcomeGreen) == 100.0
    ensures Total(AttackOutcomeRed) == 100.0
    ensures Total(DefenseOutcomeRedBlue) == 100.0
    ensures Total(DefenseOutcomeRedGreen) == 100.0
    ensures Total(DefenseOutcomeRedRed) == 99.0
  {
    assert PrefixSum(AttackOutcomeBlue, 3) == 85.0;
    assert PrefixSum(AttackOutcomeBlue, 2) == 70.0;
    assert PrefixSum(AttackOutcomeGreen, 3) == 85.0;
    assert PrefixSum(AttackOutcomeGreen, 2) == 70.0;
    assert PrefixSum(AttackOutcomeRed, 3) == 75.0;
    assert PrefixSum(AttackOutcomeRed, 2) == 50.0;
    assert PrefixSum(DefenseOutcomeRedBlue, 2) == 80.0;
    assert PrefixSum(DefenseOutcomeRedGreen, 2) == 80.0;
    assert PrefixSum(DefenseOutcomeRedRed, 2) == 66.0;
  }

  /** For a non-empty table with non-negative weights summing to `bound`,
      every draw up to `bound` selects an entry and every draw above it
      falls through to the fallback. */
  lemma CoveredDraws(t: Table, r: real, bound: real)
    requires NonNegative(t) && t != [] && Total(t) == bound
    ensures r <= bound ==> Pick(t, r).Some?
    ensures r > bound ==> Outcome(t, r) == Fallback
  {
    FallbackIffBeyondTotal(t, r);
  }

  /** A draw in (99, 100) on the red-red defense table really does fall
      through to the fallback. */
  lemma RedRedDefenseReachesFallback(r: real)
    requires 99.0 < r < 100.0
    ensures Outcome(DefenseOutcomeRedRed, r) == Fallback
  {
    TableTotals();
    FallbackIffBeyondTotal(DefenseOutcomeRedRed, r);
  }

  // ---------------------------------------------------------------------
  // The resolvers
  // ---------------------------------------------------------------------

  /** Samples the attack table of the enemy's colour; the player's colour
      plays no part. */
  function ResolveAttack(playerColor: string, enemyColor: string, r: real): (outcome: string)
    ensures outcome == Unknown <==> enemyColor !in {"blue", "green", "red"}
    ensures enemyColor == "blue" && r <= 100.0 ==>
      outcome in {"successful", "glazed", "miss", "critical"}
    ensures enemyColor == "green" && r <= 100.0 ==>
      outcome in {"miss", "glazed", "hit", "critical"}
    ensures enemyColor == "red" && r <= 100.0 ==>
      outcome in {"hit", "miss", "glazed", "critical"}
    ensures enemyColor in {"blue", "green", "red"} && r > 100.0 ==> outcome == Fallback
  {
    TableTotals();
    if enemyColor == "blue" then
      CoveredDraws(AttackOutcomeBlue, r, 100.0);
      Outcome(AttackOutcomeBlue, r)
    else if enemyColor == "green" then
      CoveredDraws(AttackOutcomeGreen, r, 100.0);
      Outcome(AttackOutcomeGreen, r)
    else if enemyColor == "red" then
      CoveredDraws(AttackOutcomeRed, r, 100.0);
      Outcome(AttackOutcomeRed, r)
    else
      Unknown
  }

  /** Samples a defense table only when the player's colour is red, choosing
      it by the enemy's colour. */
  function ResolveDefense(playerColor: string, enemyColor: string, r: real): (outcome: string)
    ensures outcome == Unknown <==> !(playerColor == "red" && enemyColor in {"blue", "green", "red"})
    ensures playerColor == "red" && enemyColor == "blue" && r <= 100.0 ==>
      outcome in {"block", "glazed_hit", "complete_hit"}
    ensures playerColor == "red" && enemyColor == "green" && r <= 100.0 ==>
      outcome in {"block", "glazed_hit", "complete_hit"}
    ensures playerColor == "red" && enemyColor == "red" && r <= 99.0 ==>
      outcome in {"block", "glazed_hit", "complete_hit"}
    ensures playerColor == "red" && enemyColor == "red" && r > 99.0 ==> outcome == Fallback
    ensures playerColor == "red" && enemyColor in {"blue", "green"} && r > 100.0 ==> outcome == Fallback
  {
    TableTotals();
    if playerColor == "red" && enemyColor == "blue" then
      CoveredDraws(DefenseOutcomeRedBlue, r, 100.0);
      Outcome(DefenseOutcomeRedBlue, r)
    else if playerColor == "red" && enemyColor == "green" then
      CoveredDraws(DefenseOutcomeRedGreen, r, 100.0);
      Outcome(DefenseOutcomeRedGreen, r)
    else if playerColor == "red" && enemyColor == "red" then
      CoveredDraws(DefenseOutcomeRedRed, r, 99.0);
      Outcome(DefenseOutcomeRedRed, r)
    else
      Unknown
  }

  /** Each enemy colour samples its own attack table: the draw bands of the
      running sums give the exact outcome for every draw. */
  lemma AttackBands(playerColor: string, r: real)
    ensures ResolveAttack(playerColor, "blue", r) ==
      if r <= 50.0 then "successful" else if r <= 70.0 then "glazed"
      else if r <= 85.0 then "miss" else if r <= 100.0 then "critical" else Fallback
    ensures ResolveAttack(playerColor, "green", r) ==
      if r <= 50.0 then "miss" else if r <= 70.0 then "glazed"
      else if r <= 85.0 then "hit" else if r <= 100.0 then "critical" else Fallback
    ensures ResolveAttack(playerColor, "red", r) ==
      if r <= 25.0 then "hit" else if r <= 50.0 then "miss"
      else if r <= 75.0 then "glazed" else if r <= 100.0 then "critical" else Fallback
  {
    OutcomeBands4(AttackOutcomeBlue, r);
    OutcomeBands4(AttackOutcomeGreen, r);
    OutcomeBands4(AttackOutcomeRed, r);
  }

  /** Each enemy colour faced by a red player samples its own defense table:
      the draw bands of the running sums give the exact outcome for every
      draw. */
  lemma DefenseBands(r: real)
    ensures ResolveDefense("red", "blue", r) ==
      if r <= 50.0 then "block" else if r <= 80.0 then "glazed_hit"
      else if r <= 100.0 then "complete_hit" else Fallback
    ensures ResolveDefense("red", "green", r) ==
      if r <= 50.0 then "complete_hit" else if r <= 80.0 then "glazed_hit"
      else if r <= 100.0 then "block" else Fallback
    ensures ResolveDefense("red", "red", r) ==
      if r <= 33.0 then "block" else if r <= 66.0 then "glazed_hit"
      else if r <= 99.0 then "complete_hit" else Fallback
  {
    OutcomeBands3(DefenseOutcomeRedBlue, r);
    OutcomeBands3(DefenseOutcomeRedGreen, r);
    OutcomeBands3(DefenseOutcomeRedRed, r);
  }

  /** The attack resolver does not depend on the player's colour. */
  lemma AttackIgnoresPlayer(p1: string, p2: string, enemyColor: string, r: real)
    ensures ResolveAttack(p1, enemyColor, r) == ResolveAttack(p2, enemyColor, r)
  {
  }
}
