# Combat outcome sampler

This is a Dafny model of the outcome resolver in a small turn-based combat game. The game draws a random number in [0, 100). It then scans an ordered probability table of (outcome, weight) pairs and keeps a running sum of the weights. It returns the first outcome whose running sum is at least the draw. The comparison is inclusive. When no running sum reaches the draw, it returns `"default"`.

Two resolvers choose the table:

- The attack resolver chooses by the enemy's colour alone.
- The defense resolver samples only when the player's colour is red.
- Both return `"unknown"` for any colour combination they do not recognise.

Everything is in the module `CombatOutcome` (`combat_outcome.dfy`):

- `Entry` is one (outcome, weight) pair. `Table` is an ordered sequence of them. The scan order is the order of the object literal's keys.
- `GetOutcome` is the cumulative scan, written as a `for` loop with an early `return`. It is proved equal to `Outcome`, a reference definition.
- `Outcome` is built on `Pick`, which gives the index of the chosen entry. `Pick` does not keep a running sum: it takes the first entry's weight off the draw and searches the rest of the table.
- `PrefixSum`, `IsFirstMatch` and `NoMatch` give the declarative "first match wins" description. Lemmas prove this description is equivalent to `Pick`.
- The six constant tables and the two resolvers. The resolvers are functions of the draw `r`.

The random draw is the parameter `r: real`. Weights are `real`. The tables hold small integers, so their running sums are exact in the source's double-precision arithmetic, and `real` gives the same comparisons.

Dafny's type system guarantees that the tables are identical before and after any call. They are immutable `const` sequences, and neither `GetOutcome` nor the resolvers has a `modifies` clause.

The red-versus-red defense table (js_scaffold.js:73-77) sums to 99, not 100, so the `"default"` fallback at js_scaffold.js:17 is reachable. `RedRedDefenseReachesFallback` proves that a draw strictly between 99 and 100 reaches it, and `ResolveDefense` states the same for any draw above 99.

## Model

| member | source | states |
|---|---|---|
| `CombatOutcome.GetOutcome` | js_scaffold.js:2-18 | The running-sum scan with early return gives exactly the reference outcome `Outcome(t, r)`: the first label whose running sum is at least `r`, or `"default"` when none is. |
| `CombatOutcome.Pick` | js_scaffold.js:9-16 | An entry index, when one is chosen, lies inside the table. |
| `CombatOutcome.PickIsFirstMatch` | js_scaffold.js:9-15 | Entry `k` is chosen if and only if the running sum through `k` is at least `r` and every earlier running sum is below `r` (first match wins, in both directions). |
| `CombatOutcome.PickNoneIsNoMatch` | js_scaffold.js:9-17 | No entry is chosen (the fallback is taken) if and only if every running sum is below `r`. |
| `CombatOutcome.OutcomeInTableOrDefault` | js_scaffold.js:9-17 | The sampler's result is a label of the table or the literal `"default"`, never anything else. |
| `CombatOutcome.InclusiveBoundary` | js_scaffold.js:13-14 | A draw equal to the first weight selects the first entry, because the comparison `<=` is inclusive. |
| `CombatOutcome.PickMonotone` | js_scaffold.js:10-14 | A larger draw never selects an earlier entry, and a draw that falls through to `"default"` still does when it grows. |
| `CombatOutcome.FallbackIffBeyondTotal` | js_scaffold.js:10-17 | With non-negative weights, `"default"` is returned exactly when the table is empty or `r` exceeds the sum of all weights. |
| `CombatOutcome.TableTotals` | js_scaffold.js:21-77 | The three attack tables and the red-blue and red-green defense tables sum to 100; the red-red defense table sums to 99. |
| `CombatOutcome.CoveredDraws` | js_scaffold.js:10-17 | For a non-empty, non-negative table summing to `bound`, a draw up to `bound` selects an entry and a draw above it gives `"default"`. |
| `CombatOutcome.RedRedDefenseReachesFallback` | js_scaffold.js:73-77 | For the red-red defense table, every draw in (99, 100) gives `"default"`. |
| `CombatOutcome.ResolveAttack` | js_scaffold.js:43-58 | The result is `"unknown"` exactly when the enemy colour is not blue, green or red. For those colours and a draw up to 100, the result is one of that colour's attack labels. A draw above 100 gives `"default"`. |
| `CombatOutcome.ResolveDefense` | js_scaffold.js:80-95 | The result is `"unknown"` exactly when the player is not red or the enemy colour is not blue, green or red. Otherwise it is one of `block`, `glazed_hit` or `complete_hit`, up to the table's total, and `"default"` above it (above 99 for red against red). |
| `CombatOutcome.OutcomeBands3` | js_scaffold.js:9-17 | For any three-entry table, the result is entry 1, 2 or 3 according to which running-sum band holds the draw (bounds inclusive), and `"default"` above the last band. |
| `CombatOutcome.OutcomeBands4` | js_scaffold.js:9-17 | The same band description for any four-entry table. |
| `CombatOutcome.AttackBands` | js_scaffold.js:21-54 | For every draw, the exact attack outcome against each enemy colour, whatever the player's colour. Blue: `successful` up to 50, `glazed` up to 70, `miss` up to 85, `critical` up to 100. Green: `miss`, `glazed`, `hit`, `critical` on the same bounds. Red: `hit`, `miss`, `glazed`, `critical` up to 25, 50, 75, 100. Above 100: `"default"`. |
| `CombatOutcome.DefenseBands` | js_scaffold.js:61-91 | For every draw, the exact defense outcome for a red player against each enemy colour. Blue: `block` up to 50, `glazed_hit` up to 80, `complete_hit` up to 100. Green: `complete_hit`, `glazed_hit`, `block` on the same bounds. Red: `block`, `glazed_hit`, `complete_hit` up to 33, 66, 99. Above the last bound: `"default"`. |
| `CombatOutcome.AttackIgnoresPlayer` | js_scaffold.js:43-54 | The attack outcome does not depend on the player's colour. |

## Left out

- The `console.log` diagnostics (js_scaffold.js:4-5, 11-12, 56, 93) are left out. They are output only and have no effect on any result.
- `Math.random()` (js_scaffold.js:3) is left out. It is a foreign floating-point generator, and the draw is the parameter `r`. The contracts speak of every `r`, and the resolvers' ensures state what happens for draws up to the tables' totals, so the draw's range [0, 100) is not a precondition.
- Statistical claims about how often each outcome occurs are left out. They are probabilistic and cannot be stated over one deterministic call.
- The example calls at the end of the file (js_scaffold.js:98-99) are left out. They are script side effects.
- Floating-point rounding of the running sum is not modelled. Weights and the draw are `real`, which is exact for the integer weights of the six tables.
- `Object.entries` lists integer-like keys before other keys. A general table is modelled as a sequence in written order, which matches the source only for keys that are not integer-like. All keys in the six tables qualify.
- Table immutability is not stated as a separate lemma. Tables are immutable values, so it holds by construction.
- `PickMonotone` is stated without the non-negative-weight assumption. The first-crossing index never moves left for any weights, so this contract is stronger, not weaker.
