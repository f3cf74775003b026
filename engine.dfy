/** The generational loop of the GA solver (GaSolver). The solver owns the state of the shared
    random source; every operator that draws from it receives the current state and returns
    the next one. Crossover, mutation, initialisation and tour evaluation are supplied by the
    caller and are not interpreted here. */
module Engine {

  import opened Seqs
  import opened Roulette

  const PopulationSize: nat := 100
  const EvolutionSteps: nat := 1000
  const MutationThreshold: real := 0.9

  /** What Evaluate() returns: the length of a tour, always positive. */
  type TourLength = x: real | x > 0.0 witness 1.0

  datatype Option<T> = None | Some(value: T)

  /** One invocation of the improvement callback: the new best individual and the generation. */
  datatype Improvement<T> = Improvement(best: T, generation: nat)

  /** The fitness of a tour of length x: positive, and x times it is 1. */
  function Reciprocal(x: TourLength): (r: real)
    ensures r > 0.0 && r * x == 1.0
  {
    1.0 / x
  }

  /** `population.Select(ind => 1 / ind.Evaluate())`. */
  function Fitness<T>(population: seq<T>, evaluate: T -> TourLength): (f: seq<real>)
    ensures |f| == |population| && Positive(f)
  {
    seq(|population|, i requires 0 <= i < |population| => Reciprocal(evaluate(population[i])))
  }

  /** Enumerable.Max. */
  function Max(xs: seq<real>): (m: real)
    requires |xs| > 0
    ensures m in xs
    ensures forall i :: 0 <= i < |xs| ==> xs[i] <= m
  {
    if |xs| == 1 then xs[0]
    else
      var m' := Max(xs[..|xs| - 1]);
      assert m' in xs[..|xs| - 1];
      if xs[|xs| - 1] > m' then xs[|xs| - 1] else m'
  }

  // ---- Best-so-far record, as a function of the per-generation maxima ----

  /** currentBestVal after the generations whose maximum fitness values are `maxima`:
      it starts at 0 and is replaced by a generation's maximum only when that is larger. */
  function BestSoFar(maxima: seq<real>): (b: real)
    ensures b >= 0.0
    ensures forall i :: 0 <= i < |maxima| ==> maxima[i] <= b
    ensures b == 0.0 || b in maxima
  {
    if maxima == [] then 0.0
    else
      var prev := BestSoFar(maxima[..|maxima| - 1]);
      assert prev == 0.0 || prev in maxima;
      if maxima[|maxima| - 1] > prev then maxima[|maxima| - 1] else prev
  }

  /** Generation j strictly improves on every earlier generation and on the seed value 0. */
  predicate Improves(maxima: seq<real>, j: int)
    requires 0 <= j < |maxima|
  {
    maxima[j] > BestSoFar(maxima[..j])
  }

  /** The callback invocations: one per improving generation, with that generation's champion. */
  function Callbacks<T>(maxima: seq<real>, champions: seq<T>): seq<Improvement<T>>
    requires |champions| == |maxima|
  {
    if maxima == [] then []
    else
      var n := |maxima| - 1;
      Callbacks(maxima[..n], champions[..n]) + if Improves(maxima, n) then [Improvement(champions[n], n)] else []
  }

  /** The field `current`: the champion of the last improving generation, None before any. */
  function Champion<T>(maxima: seq<real>, champions: seq<T>): Option<T>
    requires |champions| == |maxima|
  {
    if maxima == [] then None
    else
      var n := |maxima| - 1;
      if Improves(maxima, n) then Some(champions[n]) else Champion(maxima[..n], champions[..n])
  }

  /** Improvement is judged on prefixes, so adding generations does not change the verdict. */
  lemma ImprovesPrefix(maxima: seq<real>, n: nat, j: nat)
    requires j < n <= |maxima|
    ensures Improves(maxima[..n], j) == Improves(maxima, j)
  {
    assert maxima[..n][..j] == maxima[..j];
  }

  /** currentBestVal never decreases from one generation to a later one. */
  lemma {:induction false} BestSoFarMonotone(maxima: seq<real>, j: nat, k: nat)
    requires j <= k <= |maxima|
    ensures BestSoFar(maxima[..j]) <= BestSoFar(maxima[..k])
  {
    if j < k {
      BestSoFarMonotone(maxima, j, k - 1);
      assert maxima[..k][..k - 1] == maxima[..k - 1];
    }
  }

  /** The first generation with a positive maximum always fires the callback. */
  lemma FirstGenerationImproves(maxima: seq<real>)
    requires |maxima| > 0 && maxima[0] > 0.0
    ensures Improves(maxima, 0)
  {
    assert maxima[..0] == [];
  }

  /** The callback is invoked with (x, j) exactly when generation j improves and x is its champion. */
  lemma {:induction false} CallbackFiresExactlyOnImprovement<T>(maxima: seq<real>, champions: seq<T>, x: T, j: nat)
    requires |champions| == |maxima|
    ensures Improvement(x, j) in Callbacks(maxima, champions) <==>
              j < |maxima| && Improves(maxima, j) && x == champions[j]
  {
    if maxima != [] {
      var n := |maxima| - 1;
      CallbackFiresExactlyOnImprovement(maxima[..n], champions[..n], x, j);
      if j < n {
        ImprovesPrefix(maxima, n, j);
      }
    }
  }

  /** Every call names one of the generations, and later calls name later generations with
      larger maxima. */
  ghost predicate StrictlyImproving<T>(maxima: seq<real>, calls: seq<Improvement<T>>)
  {
    && (forall a :: 0 <= a < |calls| ==> calls[a].generation < |maxima|)
    && (forall a, b :: 0 <= a < b < |calls| ==>
          calls[a].generation < calls[b].generation
          && maxima[calls[a].generation] < maxima[calls[b].generation])
  }

  /** The property only reads maxima of the generations named, so it survives appending
      generations. */
  lemma StrictlyImprovingExtends<T>(maxima: seq<real>, n: nat, calls: seq<Improvement<T>>)
    requires n <= |maxima| && StrictlyImproving(maxima[..n], calls)
    ensures StrictlyImproving(maxima, calls)
  {
    assert forall g :: 0 <= g < n ==> maxima[..n][g] == maxima[g];
  }

  /** A call for a later generation whose maximum beats every earlier call keeps the property. */
  lemma StrictlyImprovingSnoc<T>(maxima: seq<real>, calls: seq<Improvement<T>>, last: Improvement<T>)
    requires StrictlyImproving(maxima, calls) && last.generation < |maxima|
    requires forall a :: 0 <= a < |calls| ==>
               calls[a].generation < last.generation && maxima[calls[a].generation] < maxima[last.generation]
    ensures StrictlyImproving(maxima, calls + [last])
  {
  }

  /** Successive callbacks report strictly later generations with strictly larger fitness. */
  lemma {:induction false} CallbacksStrictlyImprove<T>(maxima: seq<real>, champions: seq<T>)
    requires |champions| == |maxima|
    ensures StrictlyImproving(maxima, Callbacks(maxima, champions))
  {
    if maxima != [] {
      var n := |maxima| - 1;
      var prefix := maxima[..n];
      var earlier := Callbacks(prefix, champions[..n]);
      CallbacksStrictlyImprove(prefix, champions[..n]);
      StrictlyImprovingExtends(maxima, n, earlier);
      if Improves(maxima, n) {
        forall a | 0 <= a < |earlier|
          ensures earlier[a].generation < n && maxima[earlier[a].generation] < maxima[n]
        {
          var g := earlier[a].generation;
          assert g < n;
          assert prefix[g] == maxima[g];
          assert prefix[g] <= BestSoFar(prefix);
        }
        StrictlyImprovingSnoc(maxima, earlier, Improvement(champions[n], n));
      }
    }
  }

  /** `current` is the individual the callback received last, and None when it never fired. */
  lemma {:induction false} ChampionIsLastCallback<T>(maxima: seq<real>, champions: seq<T>)
    requires |champions| == |maxima|
    ensures var calls := Callbacks(maxima, champions);
      Champion(maxima, champions) == if calls == [] then None else Some(calls[|calls| - 1].best)
  {
    if maxima != [] {
      var n := |maxima| - 1;
      ChampionIsLastCallback(maxima[..n], champions[..n]);
    }
  }

  /** `current` is set exactly when currentBestVal has risen above 0, and then it is the
      champion of a generation whose maximum is currentBestVal. */
  lemma {:induction false} ChampionHoldsBest<T>(maxima: seq<real>, champions: seq<T>)
    requires |champions| == |maxima|
    ensures Champion(maxima, champions).Some? <==> BestSoFar(maxima) > 0.0
    ensures Champion(maxima, champions).Some? ==>
              exists j :: 0 <= j < |maxima| && champions[j] == Champion(maxima, champions).value
                          && maxima[j] == BestSoFar(maxima)
  {
    if maxima != [] {
      var n := |maxima| - 1;
      ChampionHoldsBest(maxima[..n], champions[..n]);
      if !Improves(maxima, n) && Champion(maxima, champions).Some? {
        var j :| 0 <= j < n && champions[..n][j] == Champion(maxima[..n], champions[..n]).value
                 && maxima[..n][j] == BestSoFar(maxima[..n]);
        assert champions[j] == Champion(maxima, champions).value && maxima[j] == BestSoFar(maxima);
      }
    }
  }

  /** Appending one generation updates the three records as Solve's body does: the best value
      and `current` change, and the callback fires, exactly when the new maximum is larger. */
  lemma RecordGeneration<T>(maxima: seq<real>, champions: seq<T>, best: real, champion: T)
    requires |champions| == |maxima|
    ensures var m, c := maxima + [best], champions + [champion];
      var improved := best > BestSoFar(maxima);
      && BestSoFar(m) == (if improved then best else BestSoFar(maxima))
      && Callbacks(m, c) == Callbacks(maxima, champions) + (if improved then [Improvement(champion, |maxima|)] else [])
      && Champion(m, c) == (if improved then Some(champion) else Champion(maxima, champions))
  {
    var m, c := maxima + [best], champions + [champion];
    assert m[..|maxima|] == maxima;
    assert c[..|maxima|] == champions;
  }

  /** One slot of the breeding step: from random state `before`, two draws select the parents
      by the roulette scan, then the crossover runs from the state after both draws. */
  ghost predicate BreedStep<T, R>(nextDouble: R -> (real, R), crossover: (T, T, R) -> (T, R),
                                  population: seq<T>, points: seq<real>, before: R,
                                  parents: (nat, nat), child: T, after: R)
  {
    var (drawA, r1) := nextDouble(before);
    var (drawB, r2) := nextDouble(r1);
    && Selects(points, drawA, parents.0) && Selects(points, drawB, parents.1)
    && parents.0 < |population| && parents.1 < |population|
    && (child, after) == crossover(population[parents.0], population[parents.1], r2)
  }

  /** One offspring of the mutation step: a draw above MutationThreshold applies the mutation. */
  function MutationStep<T, R>(nextDouble: R -> (real, R), mutation: (T, R) -> (T, R), ind: T, before: R): (T, R)
  {
    var (draw, r1) := nextDouble(before);
    if draw > MutationThreshold then mutation(ind, r1) else (ind, r1)
  }

  /** initialize: member i and random state i + 1 come from the initialisation operator
      applied to random state i, for each of the PopulationSize members. */
  ghost predicate IsInitialPopulation<P, T, R>(initialization: (P, R) -> (T, R), input: P,
                                               population: seq<T>, states: seq<R>)
  {
    && |population| == PopulationSize && |states| == PopulationSize + 1
    && forall i :: 0 <= i < PopulationSize ==> (population[i], states[i + 1]) == initialization(input, states[i])
  }

  /** The intermediate values of one generation's replacement: the random state before and
      after it, the splitting points, the selected parents and the offspring, with the random
      states between the slots of the breeding and of the mutation step. */
  datatype StepTrace<T, R> = StepTrace(before: R, points: seq<real>, parents: seq<(nat, nat)>, breedStates: seq<R>,
                                       offspring: seq<T>, mutateStates: seq<R>, after: R)

  /** `next` replaces `population` as the body of Solve's loop does: the splitting points of
      the normalised fitness, then roulette selection and crossover slot by slot, then one
      mutation draw per offspring, with the random state threaded from `t.before` to `t.after`. */
  ghost predicate IsStep<T, R>(nextDouble: R -> (real, R), crossover: (T, T, R) -> (T, R), mutation: (T, R) -> (T, R),
                               evaluate: T -> TourLength, population: seq<T>, next: seq<T>, t: StepTrace<T, R>)
  {
    var n := |population|;
    && n > 0
    && IsSplittingPoints(Distribution(evaluate, population), t.points)
    && |t.offspring| == n && |t.parents| == n && |t.breedStates| == n + 1 && t.breedStates[0] == t.before
    && (forall i :: 0 <= i < n ==>
          BreedStep(nextDouble, crossover, population, t.points, t.breedStates[i], t.parents[i], t.offspring[i], t.breedStates[i + 1]))
    && |next| == n && |t.mutateStates| == n + 1
    && t.mutateStates[0] == t.breedStates[n] && t.mutateStates[n] == t.after
    && (forall i :: 0 <= i < n ==>
          (next[i], t.mutateStates[i + 1]) == MutationStep(nextDouble, mutation, t.offspring[i], t.mutateStates[i]))
  }

  /** The populations `history` each arise from the one before by a step of `traces`, and
      each step starts from the random state the previous one ended in. */
  ghost predicate Evolution<T, R>(nextDouble: R -> (real, R), crossover: (T, T, R) -> (T, R), mutation: (T, R) -> (T, R),
                                  evaluate: T -> TourLength, history: seq<seq<T>>, traces: seq<StepTrace<T, R>>)
  {
    && |history| == |traces| + 1
    && (forall k :: 0 <= k < |traces| ==> IsStep(nextDouble, crossover, mutation, evaluate, history[k], history[k + 1], traces[k]))
    && (forall k :: 0 < k < |traces| ==> traces[k].before == traces[k - 1].after)
  }

  /** One more step from the last population, starting where the last step ended, extends
      the evolution. */
  lemma EvolutionExtend<T, R>(nextDouble: R -> (real, R), crossover: (T, T, R) -> (T, R), mutation: (T, R) -> (T, R),
                              evaluate: T -> TourLength, history: seq<seq<T>>, traces: seq<StepTrace<T, R>>,
                              next: seq<T>, t: StepTrace<T, R>)
    requires Evolution(nextDouble, crossover, mutation, evaluate, history, traces)
    requires IsStep(nextDouble, crossover, mutation, evaluate, history[|history| - 1], next, t)
    requires |traces| > 0 ==> t.before == traces[|traces| - 1].after
    ensures Evolution(nextDouble, crossover, mutation, evaluate, history + [next], traces + [t])
  {
  }

  /** The generation's maximum fitness and the first member attaining it. */
  ghost predicate IsGenerationBest<T>(evaluate: T -> TourLength, population: seq<T>, best: real, champion: T)
  {
    var f := Fitness(population, evaluate);
    |population| > 0 && best == Max(f) && champion == population[IndexOf(f, best)]
  }

  /** Generation records: generation k had PopulationSize members, maximum maxima[k] and
      best member champions[k]. */
  ghost predicate GenerationRecords<T>(evaluate: T -> TourLength, generations: seq<seq<T>>, maxima: seq<real>, champions: seq<T>)
  {
    && |maxima| == |generations| && |champions| == |generations|
    && forall k :: 0 <= k < |generations| ==>
         |generations[k]| == PopulationSize && IsGenerationBest(evaluate, generations[k], maxima[k], champions[k])
  }

  /** Recording one more generation keeps the records. */
  lemma RecordsExtend<T>(evaluate: T -> TourLength, generations: seq<seq<T>>, maxima: seq<real>, champions: seq<T>,
                         population: seq<T>, best: real, champion: T)
    requires GenerationRecords(evaluate, generations, maxima, champions)
    requires |population| == PopulationSize && IsGenerationBest(evaluate, population, best, champion)
    ensures GenerationRecords(evaluate, generations + [population], maxima + [best], champions + [champion])
  {
  }

  /** The selection distribution: each member's fitness divided by the population's total. */
  ghost function Distribution<T>(evaluate: T -> TourLength, population: seq<T>): (d: seq<real>)
    requires |population| > 0
    ensures |d| == |population| && Positive(d) && Sum(d) == 1.0
  {
    var f := Fitness(population, evaluate);
    SumPositive(f);
    NormalisedSumsToOne(f);
    Normalise(f, Sum(f))
  }

  class GaSolver<T, P, R> {
    var rng: R
    var current: Option<T>
    var currentBestVal: real

    const nextDouble: R -> (real, R)
    const initialization: (P, R) -> (T, R)
    const crossover: (T, T, R) -> (T, R)
    const mutation: (T, R) -> (T, R)
    const evaluate: T -> TourLength

    constructor (random: R, nextDouble: R -> (real, R), initialization: (P, R) -> (T, R),
                 crossover: (T, T, R) -> (T, R), mutation: (T, R) -> (T, R), evaluate: T -> TourLength)
      ensures rng == random && current == None && currentBestVal == 0.0
      ensures this.nextDouble == nextDouble && this.initialization == initialization
      ensures this.crossover == crossover && this.mutation == mutation && this.evaluate == evaluate
    {
      rng := random;
      current := None;
      currentBestVal := 0.0;
      this.nextDouble := nextDouble;
      this.initialization := initialization;
      this.crossover := crossover;
      this.mutation := mutation;
      this.evaluate := evaluate;
    }

    /** initialize: PopulationSize calls of the initialisation operator, in order. */
    method Initialize(input: P) returns (population: seq<T>, ghost states: seq<R>)
      modifies this`rng
      ensures IsInitialPopulation(initialization, input, population, states)
      ensures states[0] == old(rng) && states[PopulationSize] == rng
    {
      population, states := [], [rng];
      while |population| < PopulationSize
        invariant |population| <= PopulationSize && |states| == |population| + 1
        invariant states[0] == old(rng) && states[|population|] == rng
        invariant forall i :: 0 <= i < |population| ==>
                    (population[i], states[i + 1]) == initialization(input, states[i])
        decreases PopulationSize - |population|
      {
        var (ind, next) := initialization(input, rng);
        population, states := population + [ind], states + [next];
        rng := next;
      }
    }

    /** Selection and crossover: one offspring per member, each from two roulette draws and a
        crossover, consuming the random source slot by slot. */
    method Breed(population: seq<T>, points: seq<real>) returns (offspring: seq<T>, ghost parents: seq<(nat, nat)>, ghost states: seq<R>)
      requires |points| == |population| > 0
      modifies this`rng
      ensures |offspring| == |population| && |parents| == |population| && |states| == |population| + 1
      ensures states[0] == old(rng) && states[|population|] == rng
      ensures forall i :: 0 <= i < |population| ==>
                BreedStep(nextDouble, crossover, population, points, states[i], parents[i], offspring[i], states[i + 1])
    {
      offspring, parents, states := [], [], [rng];
      for x := 0 to |population|
        invariant |offspring| == x && |parents| == x && |states| == x + 1
        invariant states[0] == old(rng) && states[x] == rng
        invariant forall i :: 0 <= i < x ==>
                    BreedStep(nextDouble, crossover, population, points, states[i], parents[i], offspring[i], states[i + 1])
      {
        ghost var before := rng;
        var drawA, r1 := nextDouble(rng).0, nextDouble(rng).1;
        var first := IndexOfNextGreater(points, drawA);
        var drawB, r2 := nextDouble(r1).0, nextDouble(r1).1;
        var second := IndexOfNextGreater(points, drawB);
        var (child, next) := crossover(population[first], population[second], r2);
        rng := next;
        assert BreedStep(nextDouble, crossover, population, points, before, (first, second), child, next);
        offspring, parents, states := offspring + [child], parents + [(first, second)], states + [next];
      }
    }

    /** Mutation: one draw per offspring, after all offspring exist; a draw above
        MutationThreshold applies the mutation operator. */
    method Mutate(generation: seq<T>) returns (mutated: seq<T>, ghost states: seq<R>)
      modifies this`rng
      ensures |mutated| == |generation| && |states| == |generation| + 1
      ensures states[0] == old(rng) && states[|generation|] == rng
      ensures forall i :: 0 <= i < |generation| ==>
                (mutated[i], states[i + 1]) == MutationStep(nextDouble, mutation, generation[i], states[i])
    {
      mutated, states := [], [rng];
      for i := 0 to |generation|
        invariant |mutated| == i && |states| == i + 1
        invariant states[0] == old(rng) && states[i] == rng
        invariant forall k :: 0 <= k < i ==>
                    (mutated[k], states[k + 1]) == MutationStep(nextDouble, mutation, generation[k], states[k])
      {
        var (draw, r1) := nextDouble(rng);
        var ind := generation[i];
        if draw > MutationThreshold {
          var (m, r2) := mutation(ind, r1);
          ind, r1 := m, r2;
        }
        mutated, states := mutated + [ind], states + [r1];
        rng := r1;
      }
    }

    /** The generation's maximum fitness and the first member attaining it; that member's
        fitness is the maximum, and it is positive. */
    method GenerationBest(population: seq<T>) returns (best: real, champion: T)
      requires |population| > 0
      ensures IsGenerationBest(evaluate, population, best, champion)
      ensures champion in population && best == Reciprocal(evaluate(champion)) && best > 0.0
      ensures forall i :: 0 <= i < |population| ==> Reciprocal(evaluate(population[i])) <= best
    {
      var fitness := Fitness(population, evaluate);
      best := Max(fitness);
      var k := IndexOf(fitness, best);
      champion := population[k];
      assert fitness[k] == Reciprocal(evaluate(champion));
      assert forall i :: 0 <= i < |population| ==> fitness[i] == Reciprocal(evaluate(population[i]));
    }

    /** One generation's replacement: roulette selection over the normalised fitness values,
        crossover of the selected pairs, then mutation of the offspring. */
    method NextGeneration(population: seq<T>) returns (next: seq<T>, ghost trace: StepTrace<T, R>)
      requires |population| > 0
      modifies this`rng
      ensures IsStep(nextDouble, crossover, mutation, evaluate, population, next, trace)
      ensures trace.before == old(rng) && trace.after == rng
    {
      ghost var before := rng;
      var fitness := Fitness(population, evaluate);
      var tempPopSum := Sum(fitness);
      SumPositive(fitness);
      var distribution := Normalise(fitness, tempPopSum);
      var points := SplittingPoints(distribution);
      var offspring, parents, breedStates := Breed(population, points);
      ghost var mutateStates;
      next, mutateStates := Mutate(offspring);
      trace := StepTrace(before, points, parents, breedStates, offspring, mutateStates, rng);
    }

    /** The improvement test of one generation: a best fitness above currentBestVal is
        reported through the callback and becomes the new record. */
    method Observe(best: real, champion: T, generation: nat, ghost maxima: seq<real>, ghost champions: seq<T>, calls: seq<Improvement<T>>)
      returns (calls': seq<Improvement<T>>)
      requires generation == |maxima| && |champions| == |maxima| && best > 0.0 && best == Reciprocal(evaluate(champion))
      requires currentBestVal == BestSoFar(maxima) && calls == Callbacks(maxima, champions)
      requires |maxima| > 0 ==> current == Champion(maxima, champions)
      requires |maxima| > 0 ==> current.Some? && currentBestVal == Reciprocal(evaluate(current.value))
      modifies this`currentBestVal, this`current
      ensures currentBestVal == BestSoFar(maxima + [best])
      ensures calls' == Callbacks(maxima + [best], champions + [champion])
      ensures current == Champion(maxima + [best], champions + [champion])
      ensures current.Some? && currentBestVal == Reciprocal(evaluate(current.value))
    {
      RecordGeneration(maxima, champions, best, champion);
      calls' := calls;
      if best > currentBestVal {
        calls' := calls + [Improvement(champion, generation)];
        currentBestVal := best;
        current := Some(champion);
      }
    }

    /** Solve: EvolutionSteps generations; each records its best member, reports strict
        improvements, and is replaced by as many mutated offspring. */
    method Solve(input: P) returns (result: Option<T>, calls: seq<Improvement<T>>,
                                    ghost maxima: seq<real>, ghost champions: seq<T>, ghost generations: seq<seq<T>>,
                                    ghost initStates: seq<R>, ghost traces: seq<StepTrace<T, R>>, ghost last: seq<T>)
      modifies this
      ensures |maxima| == EvolutionSteps && GenerationRecords(evaluate, generations, maxima, champions)
      ensures IsInitialPopulation(initialization, input, generations[0], initStates) && initStates[0] == old(rng)
      ensures Evolution(nextDouble, crossover, mutation, evaluate, generations + [last], traces)
      ensures traces[0].before == initStates[PopulationSize] && traces[EvolutionSteps - 1].after == rng
      ensures currentBestVal == BestSoFar(maxima)
      ensures calls == Callbacks(maxima, champions)
      ensures current == Champion(maxima, champions) && result == current
      ensures result.Some? && currentBestVal == Reciprocal(evaluate(result.value))
    {
      currentBestVal := 0.0;
      var population;
      population, initStates := Initialize(input);
      calls, maxima, champions, generations, traces := [], [], [], [], [];
      for j := 0 to EvolutionSteps
        invariant |population| == PopulationSize
        invariant |maxima| == j && GenerationRecords(evaluate, generations, maxima, champions)
        invariant IsInitialPopulation(initialization, input, (generations + [population])[0], initStates)
        invariant initStates[0] == old(rng)
        invariant Evolution(nextDouble, crossover, mutation, evaluate, generations + [population], traces)
        invariant j == 0 ==> rng == initStates[PopulationSize]
        invariant j > 0 ==> traces[0].before == initStates[PopulationSize] && traces[j - 1].after == rng
        invariant currentBestVal == BestSoFar(maxima)
        invariant calls == Callbacks(maxima, champions)
        invariant j > 0 ==> current == Champion(maxima, champions)
        invariant j > 0 ==> current.Some? && currentBestVal == Reciprocal(evaluate(current.value))
      {
        var bestIndivValue, bestIndiv := GenerationBest(population);
        RecordsExtend(evaluate, generations, maxima, champions, population, bestIndivValue, bestIndiv);
        calls := Observe(bestIndivValue, bestIndiv, j, maxima, champions, calls);
        maxima, champions, generations := maxima + [bestIndivValue], champions + [bestIndiv], generations + [population];
        ghost var history := generations;
        var next;
        ghost var trace;
        next, trace := NextGeneration(population);
        EvolutionExtend(nextDouble, crossover, mutation, evaluate, history, traces, next, trace);
        traces := traces + [trace];
        population := next;
      }
      result := current;
      last := population;
    }
  }
}
