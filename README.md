# Genetic-algorithm TSP solver core, modelled in Dafny

This project models the evolutionary core of the TSP solver in `TSP/GASolverManager.cs`:

- the generational loop of `GaSolver`. Each generation:
  - takes the fitness `1 / Evaluate()` of every member;
  - records the best member, and reports it through the improvement callback when it
    beats the best value seen so far;
  - turns the fitness values into a selection distribution and its running sums (the
    "splitting points");
  - picks two parents per offspring slot with a roulette-wheel linear scan;
  - crosses them over and mutates the offspring with probability 1 - 0.9.
- the order crossover of `XoverOperator`. Parent 1 keeps the slice between the two cut
  points in place. Parent 2, with that slice's cities removed, fills the other positions in
  its own order.

There are three modules, plus a shared helper:

- `Crossover` (`crossover.dfy`) holds `xover`, `selectXoverCoordinates` and `Apply`.
  - Tours are `seq<int>` over the cities `0..n-1`.
  - `Skip` and `Take` clamp their count as LINQ does, so `Xover` is total.
  - The main result: two permutations always cross over into a permutation. The child also
    keeps parent 1's slice in place and the rest of parent 2 in parent 2's order.
- `Roulette` (`roulette.dfy`) holds `RouletteSelectorSpliitingPOints` (`SplittingPoints`, a
  loop over the list) and `GetIndexOfNextGreater` (`IndexOfNextGreater`, the linear scan).
  - It supplies the reference definitions these loops are proved against: prefix `Sum`s and
    the `Selects` predicate.
  - It also holds lemmas about the normalised distribution: it sums to one, and each sector
    is exactly one individual's share.
- `Engine` (`engine.dfy`) holds `GaSolver` as a class.
  - Its fields are the ones `Solve` updates: the random source, `current` and
    `currentBestVal`.
  - Its operator arguments are constant function values.
  - The methods `Initialize`, `Breed`, `Mutate`, `NextGeneration` and `Solve` keep the
    source's loops and its order of calls into the random source.
  - The bookkeeping of `Solve` is specified by functions of the per-generation maxima:
    - `BestSoFar` is the value of `currentBestVal`;
    - `Callbacks` is the sequence of callback invocations;
    - `Champion` is the value of `current`.
  - Lemmas prove what `Solve` guarantees about these: the best value never decreases, the
    callback fires exactly on strict improvements, successive reports strictly improve, and
    the returned tour is the last one reported.
  - The populations of `Solve` are tied to the operations that make them: the first is the
    result of `initialize`, and each later one arises from the one before by a generation
    step (`IsStep`), with the random state threaded from step to step.
- `Seqs` (`seqs.dfy`) holds `IndexOf`, shared by the engine and the crossover.

Modelling choices:

- Random numbers. `System.Random` is one shared stream. Every operator that draws from it
  receives its current state and returns the next state. That state `R` is a type parameter
  of the solver, and `nextDouble` is its `NextDouble`. So the model keeps which draw is used
  where, but it says nothing about the distribution of the draws.
- Call order, as the code does it. In a generation, all selection draws and crossovers come
  first, slot by slot. The LINQ query is evaluated lazily, so each slot draws parent 1, then
  parent 2, then runs the crossover. The list is materialised by `ToList()`. Only then does
  each offspring get its mutation draw. A per-offspring order "parent, parent, mutation"
  would interleave these draws; the code does not, and the model follows the code.
- Self-crossover. Crossing a parent with itself gives back exactly that parent
  (`XoverWithItself`), not merely a variant of it.
- The cut points. `selectXoverCoordinates` draws again while the second cut point equals
  the first. It is modelled over the finite sequence of numbers that `r.Next(length)` would
  return. It requires that some later draw differs from the first, because otherwise the
  source loops for ever.
- Reals. Fitness values and probabilities are exact `real`s, not IEEE doubles. The sum of
  the normalised distribution is therefore exactly 1.

## Model

| member | source | states |
|---|---|---|
| `Seqs.IndexOf` | TSP/GASolverManager.cs:80 | the index found holds the value and no earlier index does (`List.IndexOf` returns the first occurrence) |
| `Roulette.Sum` | TSP/GASolverManager.cs:88 | reference definition of `Sum()`, adding left to right; no contract of its own, its properties are the `Sum*` lemmas below |
| `Roulette.Normalise` | TSP/GASolverManager.cs:89 | dividing every fitness by the total keeps the length and keeps positive values positive |
| `Roulette.SplittingPoints` | TSP/GASolverManager.cs:106-119 | the list has one point per individual: the first point is the first share, each later point is the previous point plus its share, and point i is the sum of the shares 0..i |
| `Roulette.RunningSumsArePrefixSums` | TSP/GASolverManager.cs:108-116 | the recurrence "first share, then previous point plus next share" produces exactly the prefix sums |
| `Roulette.IndexOfNextGreater` | TSP/GASolverManager.cs:121-131 | the scan returns an in-range index k: the draw exceeds every point before k, and unless k is the last index, the draw does not exceed point k |
| `Roulette.SelectsUnique` | TSP/GASolverManager.cs:121-131 | for a given draw at most one index satisfies the scan's result condition, so the result is determined by the draw |
| `Roulette.SelectsSector` | TSP/GASolverManager.cs:121-131 | when the draw does not exceed the last point, the index found is the first whose point reaches the draw, and the point before it lies below the draw |
| `Roulette.SumPrefixMonotone` | TSP/GASolverManager.cs:88 | with non-negative values, a longer prefix has a sum at least as large |
| `Roulette.SplittingPointsNonDecreasing` | TSP/GASolverManager.cs:106-119 | with non-negative shares the splitting points never decrease |
| `Roulette.SplittingPointsSectors` | TSP/GASolverManager.cs:106-119 | the last splitting point is the total of the shares, and the gap between two neighbouring points is exactly the later individual's share |
| `Roulette.SumPositive` | TSP/GASolverManager.cs:88 | the sum of a non-empty list of positive fitness values is positive, so the division on line 89 is defined |
| `Roulette.SumNormalise` | TSP/GASolverManager.cs:88-89 | dividing every value by the total divides the sum by it |
| `Roulette.DivideSum` | TSP/GASolverManager.cs:89 | dividing two values by the total and adding them is dividing their sum (an isolated step of `SumNormalise`) |
| `Roulette.DivideSelf` | TSP/GASolverManager.cs:89 | the total divided by itself is 1 (an isolated step of `NormalisedSumsToOne`) |
| `Roulette.NormalisedSumsToOne` | TSP/GASolverManager.cs:88-89 | the normalised fitness distribution sums to exactly 1 |
| `Roulette.RouletteWheel` | TSP/GASolverManager.cs:88-94 | for a distribution summing to 1 and a draw in [0, 1), the selected individual k is the one whose sector (points[k-1], points[k]] contains the draw, and that sector is exactly k's share wide |
| `Crossover.Cities` | TSP/GASolverManager.cs:162-182 | reference definition, not code at these lines: the set of cities an n-city tour ranges over, exactly the integers 0..n-1, over which the permutation claims about `xover` are stated |
| `Crossover.Start` | TSP/GASolverManager.cs:164-175 | `startInd` is one of the two cut points and at most both of them (their minimum) |
| `Crossover.End` | TSP/GASolverManager.cs:164-175 | `endInd` is one of the two cut points and at least both of them (their maximum) |
| `Crossover.Skip` | TSP/GASolverManager.cs:177-180 | reference definition of `Enumerable.Skip` with its count clamped to 0..length; no contract of its own, its meaning for in-range counts is `TakeSkipInRange` |
| `Crossover.Take` | TSP/GASolverManager.cs:177-180 | reference definition of `Enumerable.Take` with its count clamped to 0..length; no contract of its own, its meaning for in-range counts is `TakeSkipInRange` |
| `Crossover.TakeSkipInRange` | TSP/GASolverManager.cs:177-180 | for a count between 0 and the length, `Take` is the prefix and `Skip` the suffix at that count |
| `Crossover.FixedGene` | TSP/GASolverManager.cs:177 | reference definition of `fixedGene`, `Skip(startInd).Take(endInd - startInd + 1)`; no contract of its own, its meaning is `FixedGeneIsSlice` |
| `Crossover.RestOfSecondParent` | TSP/GASolverManager.cs:178 | reference definition of `restOfSecondParent`, parent 2 filtered by `Without`; no contract of its own, its meaning is `XoverUnfold` and the `Without*` lemmas |
| `Crossover.Xover` | TSP/GASolverManager.cs:162-182 | reference definition of `xover`: the rest's first `startInd` values, the fixed gene, then the rest's remaining values; no contract of its own, what it guarantees is stated by the `Xover*` lemmas below |
| `Crossover.Without` | TSP/GASolverManager.cs:178 | filtering parent 2 never makes it longer |
| `Crossover.WithoutMembers` | TSP/GASolverManager.cs:178 | a value survives the filter exactly when it is in parent 2 and not in the fixed gene |
| `Crossover.WithoutDistinct` | TSP/GASolverManager.cs:178 | filtering a list without repeats gives a list without repeats |
| `Crossover.WithoutKeepsOrder` | TSP/GASolverManager.cs:178 | the surviving values occur in parent 2, in the same relative order |
| `Crossover.WithoutConcat` | TSP/GASolverManager.cs:178 | filtering a concatenation filters each part |
| `Crossover.WithoutCitiesSize` | TSP/GASolverManager.cs:178 | removing k distinct cities from a permutation of n cities leaves exactly n - k values |
| `Crossover.FixedGeneIsSlice` | TSP/GASolverManager.cs:164-177 | for in-range cut points, `Skip(start).Take(end - start + 1)` is parent 1's inclusive slice from the smaller cut point to the larger |
| `Crossover.XoverSplit` | TSP/GASolverManager.cs:162-182 | for permutations and in-range cut points, the rest of parent 2 has n - (end - start + 1) values, and the child is its first `start` values, then the fixed slice, then the remainder |
| `Crossover.XoverPartsValid` | TSP/GASolverManager.cs:177-178 | the fixed slice of parent 1 and parent 2 without it are each free of repeats, hold only cities, and share no city |
| `Crossover.SplicedPermutation` | TSP/GASolverManager.cs:178-181 | parent 2 without the slice has n - (end - start + 1) values, and splicing the slice into it at `start` gives a permutation that contains every city |
| `Crossover.SliceRestSize` | TSP/GASolverManager.cs:177-178 | for permutations and in-range cut points, parent 2 without the slice of parent 1 has n - (end - start + 1) values |
| `Crossover.XoverUnfold` | TSP/GASolverManager.cs:177-180 | once the fixed gene is the slice and the rest has at least `start` values, the rest of parent 2 is parent 2 without the slice and the child is its first `start` values, the slice, then the remainder |
| `Crossover.XoverIsPermutation` | TSP/GASolverManager.cs:162-182 | two permutations of the n cities cross over into a permutation of the n cities: length n, no city twice, every city present |
| `Crossover.XoverKeepsSegment` | TSP/GASolverManager.cs:177-181 | the child has length n and agrees with parent 1 at every position from the smaller cut point to the larger |
| `Crossover.XoverFillsFromSecondParent` | TSP/GASolverManager.cs:178-181 | the child's positions outside the slice, read in order, are exactly parent 2 without the slice's values |
| `Crossover.XoverKeepsSecondParentOrder` | TSP/GASolverManager.cs:178-181 | the values the child takes from parent 2 keep parent 2's relative order |
| `Crossover.XoverSymmetric` | TSP/GASolverManager.cs:164-175 | swapping the two cut points gives the same child |
| `Crossover.WithoutOwnSlice` | TSP/GASolverManager.cs:178 | removing a permutation's own slice from it cuts exactly that slice out |
| `Crossover.SliceSplit` | TSP/GASolverManager.cs:178 | a sequence is its three slices put back together (an isolated step of `WithoutOwnSlice`) |
| `Crossover.XoverWithItself` | TSP/GASolverManager.cs:162-182 | crossing a permutation with itself gives back exactly that permutation |
| `Crossover.SelectXoverCoordinates` | TSP/GASolverManager.cs:153-160 | both cut points are in range and differ; the first is the first draw; the second is the first later draw that differs from it; every draw rejected in between equalled the first |
| `Crossover.Apply` | TSP/GASolverManager.cs:147-152 | the child is the crossover at the two selected cut points, and it is a permutation whenever both parents are |
| `Engine.Reciprocal` | TSP/GASolverManager.cs:78 | the fitness `1 / Evaluate()` of a positive tour length is positive, and multiplied by the tour length gives exactly 1 |
| `Engine.Fitness` | TSP/GASolverManager.cs:78 | one fitness per member, and every fitness is positive |
| `Engine.Max` | TSP/GASolverManager.cs:79 | the maximum occurs in the list and bounds every element |
| `Engine.BestSoFar` | TSP/GASolverManager.cs:73-86 | the recorded best value is at least 0, bounds every generation's maximum, and is 0 or one of those maxima |
| `Engine.Improves` | TSP/GASolverManager.cs:81 | reference definition of the strict test `bestIndivValue > currentBestVal` for generation j, against the best value of the generations before it; no contract of its own, its properties are `ImprovesPrefix` and `FirstGenerationImproves` |
| `Engine.Callbacks` | TSP/GASolverManager.cs:83 | reference definition of the sequence of callback invocations, one per improving generation; no contract of its own, its meaning is `CallbackFiresExactlyOnImprovement` and `CallbacksStrictlyImprove` |
| `Engine.Champion` | TSP/GASolverManager.cs:85 | reference definition of the field `current`, the champion of the last improving generation; no contract of its own, its meaning is `ChampionIsLastCallback` and `ChampionHoldsBest` |
| `Engine.ImprovesPrefix` | TSP/GASolverManager.cs:81 | whether a generation improves depends only on the generations before it |
| `Engine.BestSoFarMonotone` | TSP/GASolverManager.cs:81-86 | `currentBestVal` never decreases from one generation to a later one |
| `Engine.FirstGenerationImproves` | TSP/GASolverManager.cs:73-86 | because the best value starts at 0, a first generation with positive fitness always fires the callback |
| `Engine.CallbackFiresExactlyOnImprovement` | TSP/GASolverManager.cs:81-83 | the callback receives (x, j) if and only if generation j's maximum strictly exceeds every earlier recorded best and x is generation j's best member |
| `Engine.StrictlyImprovingExtends` | TSP/GASolverManager.cs:81-83 | the strict-improvement property of a list of reports survives appending generations |
| `Engine.StrictlyImprovingSnoc` | TSP/GASolverManager.cs:81-83 | a report for a later generation with a larger maximum can be appended while keeping the property |
| `Engine.CallbacksStrictlyImprove` | TSP/GASolverManager.cs:81-85 | every report names an existing generation, and later reports name strictly later generations with strictly larger fitness |
| `Engine.ChampionIsLastCallback` | TSP/GASolverManager.cs:81-85 | `current` is the member passed to the last callback, and none when the callback never fired |
| `Engine.ChampionHoldsBest` | TSP/GASolverManager.cs:81-85 | `current` is set exactly when the best value has risen above 0, and then it is the best member of a generation whose maximum equals the recorded best value |
| `Engine.RecordGeneration` | TSP/GASolverManager.cs:78-86 | one more generation changes the best value and `current`, and appends a callback, exactly when its maximum beats the recorded best |
| `Engine.BreedStep` | TSP/GASolverManager.cs:92-97 | reference definition of one offspring slot: two roulette draws select the parents by the scan's `Selects` condition, then the crossover runs from the state after both draws; no contract of its own, `Breed` is proved against it |
| `Engine.MutationStep` | TSP/GASolverManager.cs:98-99 | reference definition of one offspring's mutation: one draw, and the mutation operator exactly when the draw exceeds 0.9; no contract of its own, `Mutate` is proved against it |
| `Engine.IsInitialPopulation` | TSP/GASolverManager.cs:65-69 | reference definition of `initialize`: `PopulationSize` members, member i made by the operator from random state i; no contract of its own, `Initialize` and `Solve` are proved against it |
| `Engine.IsStep` | TSP/GASolverManager.cs:88-100 | reference definition of one generation's replacement: splitting points of the normalised fitness, then one `BreedStep` per slot, then one `MutationStep` per offspring, with the random states between them; no contract of its own, `NextGeneration` and `Solve` are proved against it |
| `Engine.Evolution` | TSP/GASolverManager.cs:76-100 | reference definition of a run: each population arises from the one before by an `IsStep`, each step starting in the random state the previous one ended in; no contract of its own |
| `Engine.EvolutionExtend` | TSP/GASolverManager.cs:76-100 | one more step from the last population, starting where the last step ended, extends the run |
| `Engine.GaSolver.constructor` | TSP/GASolverManager.cs:57-64 | the solver keeps the given random source and operators, with no current best yet |
| `Engine.GaSolver.Initialize` | TSP/GASolverManager.cs:65-69 | the population is `IsInitialPopulation`: `PopulationSize` members, each made by one call of the initialisation operator, in order, threading the random source from its old state to its new one |
| `Engine.GaSolver.GenerationBest` | TSP/GASolverManager.cs:78-80 | the member returned is in the population and is the first that attains the maximum fitness; its fitness is the maximum, is positive, and no member's fitness is higher |
| `Engine.RecordsExtend` | TSP/GASolverManager.cs:76-80 | recording one more generation keeps the per-generation records |
| `Engine.Distribution` | TSP/GASolverManager.cs:88-89 | the selection distribution has one positive share per member and sums to 1 |
| `Engine.GaSolver.Observe` | TSP/GASolverManager.cs:81-86 | after one generation's best is observed, `currentBestVal`, `current` and the callbacks are those of the extended generation history; `current` is set and `currentBestVal` is its fitness |
| `Engine.GaSolver.Breed` | TSP/GASolverManager.cs:92-97 | one offspring per slot; each comes from two roulette draws and one crossover, taken from the random source in that order, slot after slot |
| `Engine.GaSolver.Mutate` | TSP/GASolverManager.cs:98-99 | one draw per offspring, after all of them exist; the mutation operator is applied exactly when the draw exceeds 0.9 |
| `Engine.GaSolver.NextGeneration` | TSP/GASolverManager.cs:88-100 | the next population is an `IsStep` of the current one: roulette selection over the splitting points of the normalised fitness, then crossover, then mutation, with the random source threaded from its old state to its new one |
| `Engine.GaSolver.Solve` | TSP/GASolverManager.cs:71-104 | after `EvolutionSteps` generations of `PopulationSize` members: `currentBestVal` is the best-so-far of the generation maxima; the callbacks are exactly the strict improvements; the result is `current`, which is the last member reported, is set, and has fitness (`Reciprocal` of its tour length) equal to `currentBestVal`; the first generation is the `initialize` result from the old random state, and every later one (and the final population) is an `IsStep` of the one before, the random state passing from step to step and ending in `rng` |

## Left out

- Console output, the visualiser, `convertToTSPSol` and the `GASolverManager` wrapper (lines 8-42) are I/O around the core.
- The concrete operators `PermutationRandomizer`, `SimpleSwapOperator` and `PermutationStandardFactory` are not part of this model. The engine takes initialisation, crossover and mutation as arbitrary functions of the random state, so swap-mutation locality and the uniformity of initialisation are not modelled.
- The constructor's casts of the concrete operators to their interfaces (lines 61-62) are not modelled. The operators are given with their abstract types.
- `System.Random` is modelled as an abstract state with a next-value function. Its distribution, and the range [0, 1) of `NextDouble`, are assumptions only where a lemma states them (`RouletteWheel`).
- Engine.GaSolver.Breed: the crossover constant stands for `XoverOperator.Apply` abstractly. Its permutation guarantee is proved separately in `Crossover.Apply`, and the two are not joined into one statement about every generation.
- Floating point: fitness, probabilities and splitting points are exact reals. Rounding, a last splitting point slightly below 1, and division by zero (impossible for positive tour lengths) are not modelled.
- Roulette.SplittingPoints and Roulette.IndexOfNextGreater require a non-empty list. The source indexes element 0 unconditionally and would throw on an empty list, which cannot happen with `PopulationSize` = 100.
- The improvement callback is optional in the source (`?.Invoke`). The model returns the sequence of calls it would receive, whether or not a callback is registered.
- Candidates are values. `current` and the population members are shared references in the source, but they are never mutated after creation there, so aliasing is not modelled.
