# Ranged-index comparators and the benchmark shuffle

This project models two pieces of an in-memory database's ranged (ordered) indexes.

The first piece is the comparator strategies that each ranged index is built on. A comparator is a three-way `compare(val, val2)`. It returns 0 when the values are equal, -1 when `val` sorts first, and 1 otherwise. The factory registers two of them:

- **"js"** uses the language's strict equality `===` and relational `<`.
- **"abstract"** calls two global helper functions of another library: `aeqHelper` (deep equality) and `ltHelper` (a type-aware less-than). The model makes them parameters.

The TypeScript source and its compiled JavaScript carry the same if-chains. One set of functions (`RangedFactory`) models both. Rows about the comparators' if-chains name the lines in both files; rows about the string and number orders name the `<` of the TypeScript file, which the compiled file repeats at dist/ranged_factory.js:21.

The second piece is the benchmark harness's `shuffle`. It is an in-place Fisher–Yates shuffle of an array, with `currentIndex` counting down from the array's length. Each round:

1. draws `randomIndex = floor(Math.random() * currentIndex)`;
2. decrements `currentIndex`;
3. swaps `array[currentIndex]` with `array[randomIndex]` through a temporary.

The update and remove benchmarks shuffle the ids that `rangeRequest()` returns and then update or remove the entries in that order (index.ts:203-212, 242-251, 281-286, 316-321). This is modelled in the module `Benchmark`.

Both the randomness and the "js" comparator's value domain are parameters:

- `draws[k]` is what `Math.random()` returned in round `k`, a real in [0, 1).
- `picks[k]` is the `randomIndex` that round computed from it. `Picks` maps draws to picks.
- `Shuffle` is proved against `FisherYates`, a pure round-by-round definition. That function's permutation, suffix, injectivity and reachability properties are lemmas.
- `less` is the relational `<`. It is instantiated with `NumberLess` (integers) and `StringLess` (string order). Both are proved to be strict total orders, and `NumberCompareLaws` and `StringCompareLaws` apply the comparator laws to each.

## Model

| member | source | states |
|---|---|---|
| RangedFactory.JsCompare | src/ranged_factory.ts:16-24 | the answer is one of -1, 0, 1; it is 0 exactly when the values are strictly equal; it is -1 exactly when they differ and `val < val2`; otherwise it is 1 (also dist/ranged_factory.js:16-26) |
| RangedFactory.JsCompareReflexive | src/ranged_factory.ts:19 | a value compares 0 with itself, whatever `<` says (dist/ranged_factory.js:19-20) |
| RangedFactory.JsCompareAgreesWithLess | src/ranged_factory.ts:19-21 | over a strict total order, -1 holds exactly when `val < val2` and 1 holds exactly when `val2 < val` (dist/ranged_factory.js:19-23) |
| RangedFactory.JsCompareAntisymmetric | src/ranged_factory.ts:18-22 | over a strict total order, swapping the arguments negates the answer (dist/ranged_factory.js:18-24) |
| RangedFactory.JsCompareTransitive | src/ranged_factory.ts:18-22 | over a strict total order, "-1" chains, and so does "≤ 0" (dist/ranged_factory.js:18-24) |
| RangedFactory.NumberLess | src/ranged_factory.ts:20 | `<` on numbers, restricted to integers; its laws are the lemmas below (dist/ranged_factory.js:21) |
| RangedFactory.NumberLessIsStrictTotalOrder | src/ranged_factory.ts:20 | `<` on integer numbers is irreflexive, transitive and connected (dist/ranged_factory.js:21) |
| RangedFactory.NumberCompareLaws | src/ranged_factory.ts:18-22 | for number keys, the "js" comparator's -1 and 1 mean `<` and `>`, swapping the arguments negates the answer, and -1 chains (dist/ranged_factory.js:18-24) |
| RangedFactory.StringLess | src/ranged_factory.ts:20 | `<` on strings, character by character from the left; `StringLessIff` proves it equal to the prefix-or-first-difference order (dist/ranged_factory.js:21) |
| RangedFactory.StringLessIff | src/ranged_factory.ts:20 | string `<` holds exactly when `val` is a proper prefix of `val2`, or when the strings first differ at an index where `val` holds the smaller unit (dist/ranged_factory.js:21) |
| RangedFactory.StringLessIrreflexive | src/ranged_factory.ts:20 | no string is `<` itself |
| RangedFactory.StringLessTransitive | src/ranged_factory.ts:20 | string `<` chains |
| RangedFactory.StringLessConnected | src/ranged_factory.ts:20 | of two different strings, one is `<` the other |
| RangedFactory.StringLessIsStrictTotalOrder | src/ranged_factory.ts:20 | string `<` is a strict total order |
| RangedFactory.StringCompareLaws | src/ranged_factory.ts:18-22 | for string keys, the "js" comparator's -1 and 1 mean `<` and `>`, swapping the arguments negates the answer, and -1 chains (dist/ranged_factory.js:18-24) |
| RangedFactory.AbstractCompare | src/ranged_factory.ts:26-34 | the answer is one of -1, 0, 1; it is 0 exactly when `aeqHelper` holds; it is -1 exactly when `aeqHelper` fails and `ltHelper(val, val2, false)` holds; it is 1 exactly when both fail (dist/ranged_factory.js:27-37) |
| RangedFactory.AbstractCompareEqualityFirst | src/ranged_factory.ts:29-30 | values that `aeqHelper` equates compare 0, whatever any `ltHelper` says (dist/ranged_factory.js:30-33) |
| RangedFactory.AbstractCompareAntisymmetric | src/ranged_factory.ts:28-32 | when the helpers are symmetric and decisive on a pair, swapping the arguments negates the answer (dist/ranged_factory.js:29-35) |
| RangedFactory.JsCompareIsAbstractCompare | src/ranged_factory.ts:16-34 | the "js" comparator is the abstract one with `===` as `aeqHelper` and `<` as `ltHelper` (dist/ranged_factory.js:16-37) |
| Benchmark.RandomIndex | index.ts:27 | the floor of the exact real product `draw * currentIndex` is an index below `currentIndex` |
| Benchmark.RandomIndexIsFloor | index.ts:27 | the index is the floor of `draw * currentIndex`: at most that product and more than the product minus one |
| Benchmark.Picks | index.ts:24-28 | the draws give one pick per round, and the pick of round `k` is below the `currentIndex` of that round, `length - k` |
| Benchmark.Swap | index.ts:31-33 | the swap through `temporaryValue`; what it does to the cells is stated by `SwapExchanges` and `SwapPermutes` |
| Benchmark.SwapExchanges | index.ts:31-33 | the three-assignment swap exchanges the two cells, leaves every other cell alone, and changes nothing when the two indices coincide |
| Benchmark.SwapPermutes | index.ts:31-33 | the swap keeps the multiset of elements |
| Benchmark.FisherYates | index.ts:24-34 | the loop's rounds from `currentIndex == c` down, each picking, decrementing and swapping; `Shuffle` is proved against it and its properties are the lemmas below |
| Benchmark.FisherYatesPermutation | index.ts:20-37 | the rounds keep the length and the multiset of elements |
| Benchmark.FisherYatesKeepsSuffix | index.ts:24-34 | the rounds from `currentIndex == c` down never touch a cell at `c` or above |
| Benchmark.FisherYatesSettles | index.ts:27-33 | the round at `currentIndex == c` puts the element its pick names into cell `c - 1`, and that cell keeps it to the end |
| Benchmark.FisherYatesReadsOwnPicks | index.ts:24-28 | the rounds still to run depend only on their own picks |
| Benchmark.FisherYatesInjective | index.ts:24-34 | on distinct elements, picks that reach the same arrangement are equal |
| Benchmark.FisherYatesReaches | index.ts:24-34 | every arrangement of the unsettled prefix is reached by some valid picks |
| Benchmark.FisherYatesIsBijective | index.ts:20-37 | for distinct elements, valid picks and permutations of the array correspond one to one |
| Benchmark.RoundKeepsInvariant | index.ts:24-34 | one loop round keeps the loop invariant: the pick is below `currentIndex`, the remaining rounds reach the same result, and every cell from the new `currentIndex` on holds its final value |
| Benchmark.Shuffle | index.ts:20-37 | rearranges the array in place and returns that same array; the new contents are the Fisher–Yates rounds applied to the old contents under the given picks, hence a permutation; an empty array is unchanged |
| Benchmark.ShuffleWithDraws | index.ts:20-37 | the same, with each round's index the floor of the exact real product of its draw and `currentIndex` (not the rounded double product; see "## Left out") |

## Left out

- The AVL index (`AvlIndex` / `BinaryTreeIndex`) is not part of this model. Its behaviour under a comparator that breaks these laws is not modelled.
- The bodies of `aeqHelper` and `ltHelper` come from another library. They are parameters of `AbstractCompare`, and no property of them is assumed beyond what each lemma requires.
- The registries `ComparatorMap` and `RangedIndexFactoryMap` are plain constant lookup tables, so they are not modelled. (The compiled file's "avl" entry names a different index class than the TypeScript file.)
- JavaScript's mixed-type `<` and `===` (coercion, `NaN`, `-0`, floating point, `undefined`) are not modelled. Numbers are integers, and each domain is homogeneous.
- `StringLess` compares Dafny characters, which are Unicode scalar values, not UTF-16 code units. The two orders differ above the Basic Multilingual Plane.
- `Math.random()` is not modelled. Its results are the `draws` parameter, and `Shuffle` takes the per-round indices directly as `picks`.
- No claim is made about the uniformity of the distribution. What is proved is the combinatorial fact behind it: for distinct elements, picks map one-to-one onto permutations.
- `generateRandomString`, which uses `crypto.randomBytes`, is not modelled because it is an I/O source of keys.
- The profiling methods, `cleanup` and `execSteps` are not modelled because they are timing, garbage-collection and console I/O.
- RandomIndex: the product `draw * currentIndex` is exact real arithmetic, not the rounded IEEE double product. The rounded product can reach the next integer: for `Math.random()` returning 0.8333333333333333 (3752999689475413 / 2^52) and `currentIndex` 6, the double product is 5.0, so the source picks 5; the model picks 4. Either way the index is below `currentIndex`.
- RandomIndexIsFloor: states the floor of the exact real product, which the rounded double product can exceed by one (same example).
- Picks: each pick is the exact-real `RandomIndex`, so on such rounding inputs a pick differs from the source's by one.
- ShuffleWithDraws: through `Picks`, the arrangement for such draws can differ from the source's. `Shuffle` itself, given the source's own indices as `picks`, is not affected.
- Shuffle: the source guarantees in-bounds accesses at run time only by the range of `Math.random()`. The model gets them from the requirement `ValidPicks(picks)`, which `Picks` establishes for any draws in [0, 1).
