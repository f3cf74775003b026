/** The order crossover of the GA solver (XoverOperator): parent 1 keeps a slice in place,
    parent 2 fills the remaining positions in its own order. Tours are sequences of city
    indices 0..n-1. */
module Crossover {

  import opened Seqs

  /** No value occurs twice. */
  predicate Distinct(s: seq<int>)
  {
    forall i, j :: 0 <= i < j < |s| ==> s[i] != s[j]
  }

  /** A tour over the cities 0..n-1: length n, every entry a city, no city twice. */
  predicate IsPermutation(s: seq<int>, n: int)
  {
    |s| == n && Distinct(s) && forall i :: 0 <= i < |s| ==> 0 <= s[i] < n
  }

  function Elements(s: seq<int>): set<int>
  {
    set x | x in s
  }

  function Cities(n: nat): (c: set<int>)
    ensures forall v :: v in c <==> 0 <= v < n
  {
    if n == 0 then {} else Cities(n - 1) + {n - 1}
  }

  /** Enumerable.Skip: a count of 0 or less drops nothing, one of |s| or more drops all. */
  function Skip(s: seq<int>, count: int): seq<int>
  {
    if count <= 0 then s else if count >= |s| then [] else s[count..]
  }

  /** Enumerable.Take: a count of 0 or less takes nothing, one of |s| or more takes all. */
  function Take(s: seq<int>, count: int): seq<int>
  {
    if count <= 0 then [] else if count >= |s| then s else s[..count]
  }

  /** `s.Where(num => !fixed.Contains(num))`: the values of s not in `fixed`, in s's order. */
  function Without(s: seq<int>, fixed: seq<int>): (r: seq<int>)
    ensures |r| <= |s|
  {
    if s == [] then []
    else if s[0] in fixed then Without(s[1..], fixed)
    else [s[0]] + Without(s[1..], fixed)
  }

  /** startInd and endInd: the two cut points in increasing order. */
  function Start(coord1: int, coord2: int): (r: int)
    ensures (r == coord1 || r == coord2) && r <= coord1 && r <= coord2
  {
    if coord1 < coord2 then coord1 else coord2
  }

  function End(coord1: int, coord2: int): (r: int)
    ensures (r == coord1 || r == coord2) && r >= coord1 && r >= coord2
  {
    if coord1 < coord2 then coord2 else coord1
  }

  /** fixedGene: parent 1's inclusive slice [startInd..endInd]. */
  function FixedGene(parent1: seq<int>, coord1: int, coord2: int): seq<int>
  {
    var startInd := Start(coord1, coord2);
    Take(Skip(parent1, startInd), End(coord1, coord2) - startInd + 1)
  }

  /** restOfSecondParent: parent 2 without the values of the fixed gene. */
  function RestOfSecondParent(parent1: seq<int>, parent2: seq<int>, coord1: int, coord2: int): seq<int>
  {
    Without(parent2, FixedGene(parent1, coord1, coord2))
  }

  /** xover: the first startInd values of the rest, then the fixed gene, then the remaining rest. */
  function Xover(parent1: seq<int>, parent2: seq<int>, coord1: int, coord2: int): seq<int>
  {
    var startInd := Start(coord1, coord2);
    var rest := RestOfSecondParent(parent1, parent2, coord1, coord2);
    Take(rest, startInd) + FixedGene(parent1, coord1, coord2) + Skip(rest, startInd)
  }

  /** selectXoverCoordinates. `draws` are the successive results of r.Next(length); the second
      coordinate is drawn again while it equals the first. The source loops for ever unless
      some later draw differs from the first, which the second requires states. */
  method SelectXoverCoordinates(length: int, draws: seq<int>) returns (first: int, second: int, used: nat)
    requires forall i :: 0 <= i < |draws| ==> 0 <= draws[i] < length
    requires exists i :: 1 <= i < |draws| && draws[i] != draws[0]
    ensures 0 <= first < length && 0 <= second < length && first != second
    ensures 2 <= used <= |draws| && first == draws[0] && second == draws[used - 1]
    ensures forall i :: 1 <= i < used - 1 ==> draws[i] == first
  {
    first := draws[0];
    second := draws[1];
    used := 2;
    while second == first
      invariant 2 <= used <= |draws|
      invariant second == draws[used - 1]
      invariant forall i :: 1 <= i < used - 1 ==> draws[i] == first
      invariant exists i :: used - 1 <= i < |draws| && draws[i] != first
      decreases |draws| - used
    {
      second := draws[used];
      used := used + 1;
    }
  }

  /** XoverOperator.Apply: choose the cut points, then cross over. The factory that wraps the
      array into a candidate is not part of this model. */
  method Apply(parent1: seq<int>, parent2: seq<int>, draws: seq<int>) returns (child: seq<int>, used: nat)
    requires forall i :: 0 <= i < |draws| ==> 0 <= draws[i] < |parent1|
    requires exists i :: 1 <= i < |draws| && draws[i] != draws[0]
    ensures 2 <= used <= |draws| && draws[0] != draws[used - 1]
    ensures child == Xover(parent1, parent2, draws[0], draws[used - 1])
    ensures IsPermutation(parent1, |parent1|) && IsPermutation(parent2, |parent1|) ==>
              IsPermutation(child, |parent1|)
  {
    var coord1, coord2;
    coord1, coord2, used := SelectXoverCoordinates(|parent1|, draws);
    child := Xover(parent1, parent2, coord1, coord2);
    if IsPermutation(parent1, |parent1|) && IsPermutation(parent2, |parent1|) {
      XoverIsPermutation(parent1, parent2, coord1, coord2, |parent1|);
    }
  }

  // ---- Counting lemmas ----

  lemma {:induction false} DistinctCard(s: seq<int>)
    requires Distinct(s)
    ensures |Elements(s)| == |s|
  {
    if s != [] {
      var t := s[1..];
      assert Distinct(t);
      DistinctCard(t);
      assert Elements(s) == {s[0]} + Elements(t);
      assert s[0] !in Elements(t);
    }
  }

  lemma {:induction false} CitiesCard(n: nat)
    ensures |Cities(n)| == n
  {
    if n > 0 {
      CitiesCard(n - 1);
      var c := Cities(n - 1);
      assert n - 1 !in c;
      assert |c + {n - 1}| == |c| + 1;
    }
  }

  /** Taking a subset away removes exactly its size. */
  lemma SubsetDifferenceCard(a: set<int>, b: set<int>)
    requires b <= a
    ensures |a - b| == |a| - |b|
  {
    assert a * b == b;
    assert a + b == a;
    assert b - a == {};
  }

  lemma SubsetSameCard(a: set<int>, b: set<int>)
    requires a <= b && |a| == |b|
    ensures a == b
  {
    SubsetDifferenceCard(b, a);
    assert b - a == {};
  }

  /** A permutation of 0..n-1 contains every city: no omissions. */
  lemma PermutationCoversCities(s: seq<int>, n: nat)
    requires IsPermutation(s, n)
    ensures Elements(s) == Cities(n)
    ensures forall v :: 0 <= v < n ==> v in s
  {
    DistinctCard(s);
    CitiesCard(n);
    forall x | x in Elements(s) ensures x in Cities(n) {
      var i :| 0 <= i < |s| && s[i] == x;
    }
    SubsetSameCard(Elements(s), Cities(n));
    forall v | 0 <= v < n ensures v in s {
      assert v in Cities(n);
    }
  }

  // ---- Lemmas about Without ----

  /** Without keeps exactly the values of s that are not in `fixed`. */
  lemma {:induction false} WithoutMembers(s: seq<int>, fixed: seq<int>)
    ensures forall x :: x in Without(s, fixed) <==> x in s && x !in fixed
  {
    if s != [] {
      WithoutMembers(s[1..], fixed);
      assert s == [s[0]] + s[1..];
    }
  }

  lemma {:induction false} WithoutDistinct(s: seq<int>, fixed: seq<int>)
    requires Distinct(s)
    ensures Distinct(Without(s, fixed))
  {
    if s != [] {
      var t := s[1..];
      assert Distinct(t);
      WithoutDistinct(t, fixed);
      if s[0] !in fixed {
        var w := Without(t, fixed);
        assert s[0] !in t;
        WithoutMembers(t, fixed);
        assert s[0] !in w;
        var r := [s[0]] + w;
        forall i, j | 0 <= i < j < |r| ensures r[i] != r[j] {
          if i == 0 {
            assert r[j] == w[j - 1];
          } else {
            assert r[i] == w[i - 1] && r[j] == w[j - 1];
          }
        }
      }
    }
  }

  lemma IndexOfTail(s: seq<int>, y: int)
    requires s != [] && y in s[1..] && y != s[0]
    ensures IndexOf(s, y) == 1 + IndexOf(s[1..], y)
  {
  }

  /** Every value of r occurs in s, and the values of r occur in s in r's order. */
  predicate InOrderOf(r: seq<int>, s: seq<int>)
  {
    && (forall i :: 0 <= i < |r| ==> r[i] in s)
    && (forall i, j :: 0 <= i < j < |r| ==> IndexOf(s, r[i]) < IndexOf(s, r[j]))
  }

  /** An ordering inside s[1..] of values other than s[0] is an ordering inside s. */
  lemma InOrderOfTail(s: seq<int>, w: seq<int>)
    requires s != [] && InOrderOf(w, s[1..])
    requires forall i :: 0 <= i < |w| ==> w[i] != s[0]
    ensures InOrderOf(w, s)
  {
    forall i | 0 <= i < |w| ensures w[i] in s && IndexOf(s, w[i]) == 1 + IndexOf(s[1..], w[i]) {
      IndexOfTail(s, w[i]);
    }
  }

  /** Putting s[0] in front of an ordering inside s[1..] gives an ordering inside s. */
  lemma InOrderOfCons(s: seq<int>, w: seq<int>)
    requires s != [] && InOrderOf(w, s[1..]) && s[0] !in s[1..]
    ensures InOrderOf([s[0]] + w, s)
  {
    forall i | 0 <= i < |w| ensures w[i] != s[0] {
      assert w[i] in s[1..];
    }
    InOrderOfTail(s, w);
    var r := [s[0]] + w;
    forall i, j | 0 <= i < j < |r| ensures IndexOf(s, r[i]) < IndexOf(s, r[j]) {
      assert r[j] == w[j - 1];
      if i > 0 {
        assert r[i] == w[i - 1];
      }
    }
  }

  /** The values Without keeps appear in the order they have in s. */
  lemma {:induction false} WithoutKeepsOrder(s: seq<int>, fixed: seq<int>)
    requires Distinct(s)
    ensures InOrderOf(Without(s, fixed), s)
  {
    if s != [] {
      var t := s[1..];
      assert Distinct(t);
      assert s[0] !in t;
      WithoutKeepsOrder(t, fixed);
      var w := Without(t, fixed);
      if s[0] in fixed {
        forall i | 0 <= i < |w| ensures w[i] != s[0] {
          assert w[i] in t;
        }
        InOrderOfTail(s, w);
      } else {
        InOrderOfCons(s, w);
      }
    }
  }

  lemma {:induction false} WithoutConcat(a: seq<int>, b: seq<int>, fixed: seq<int>)
    ensures Without(a + b, fixed) == Without(a, fixed) + Without(b, fixed)
  {
    if a != [] {
      assert (a + b)[1..] == a[1..] + b;
      WithoutConcat(a[1..], b, fixed);
    } else {
      assert a + b == b;
    }
  }

  lemma {:induction false} WithoutDisjoint(a: seq<int>, fixed: seq<int>)
    requires forall i :: 0 <= i < |a| ==> a[i] !in fixed
    ensures Without(a, fixed) == a
  {
    if a != [] {
      assert a[0] !in fixed;
      assert forall i :: 0 <= i < |a| - 1 ==> a[1..][i] == a[i + 1];
      WithoutDisjoint(a[1..], fixed);
      assert Without(a, fixed) == [a[0]] + Without(a[1..], fixed);
      assert a == [a[0]] + a[1..];
    }
  }

  lemma {:induction false} WithoutContained(a: seq<int>, fixed: seq<int>)
    requires forall i :: 0 <= i < |a| ==> a[i] in fixed
    ensures Without(a, fixed) == []
  {
    if a != [] {
      assert a[0] in fixed;
      assert forall i :: 0 <= i < |a| - 1 ==> a[1..][i] == a[i + 1];
      WithoutContained(a[1..], fixed);
      assert Without(a, fixed) == Without(a[1..], fixed);
    }
  }

  // ---- The crossover ----

  /** Concatenating with a block of new values inserted anywhere keeps values distinct. */
  lemma DistinctSplice(a: seq<int>, b: seq<int>, k: int)
    requires Distinct(a) && Distinct(b) && 0 <= k <= |a|
    requires forall x :: x in a ==> x !in b
    ensures Distinct(a[..k] + b + a[k..])
  {
    var r := a[..k] + b + a[k..];
    assert forall i :: 0 <= i < |r| ==>
      r[i] == (if i < k then a[i] else if i < k + |b| then b[i - k] else a[i - |b|]);
    forall i, j | 0 <= i < j < |r| ensures r[i] != r[j] {
      if k <= i < k + |b| && !(k <= j < k + |b|) {
        assert r[i] in b;
        assert r[j] in a;
      } else if k <= j < k + |b| && !(k <= i < k + |b|) {
        assert r[j] in b;
        assert r[i] in a;
      }
    }
  }

  /** A slice of a sequence without repeats has none either. */
  lemma SliceDistinct(p: seq<int>, lo: int, hi: int)
    requires Distinct(p) && 0 <= lo <= hi <= |p|
    ensures Distinct(p[lo..hi])
  {
    var q := p[lo..hi];
    forall i, j | 0 <= i < j < |q| ensures q[i] != q[j] {
      assert q[i] == p[lo + i] && q[j] == p[lo + j];
    }
  }

  /** Within bounds, Take and Skip are plain slicing. */
  lemma TakeSkipInRange(s: seq<int>, count: int)
    requires 0 <= count <= |s|
    ensures Take(s, count) == s[..count] && Skip(s, count) == s[count..]
  {
  }

  /** For in-range cut points the fixed gene is the slice parent1[startInd..endInd]. */
  lemma FixedGeneIsSlice(parent1: seq<int>, coord1: int, coord2: int)
    requires 0 <= coord1 < |parent1| && 0 <= coord2 < |parent1|
    ensures FixedGene(parent1, coord1, coord2) == parent1[Start(coord1, coord2)..End(coord1, coord2) + 1]
  {
    var s, e := Start(coord1, coord2), End(coord1, coord2);
    TakeSkipInRange(parent1, s);
    assert parent1[s..][..e - s + 1] == parent1[s..e + 1];
  }

  /** Removing distinct cities from a permutation of 0..n-1 leaves n minus as many values. */
  lemma WithoutCitiesSize(tour: seq<int>, fixed: seq<int>, n: nat)
    requires IsPermutation(tour, n) && Distinct(fixed)
    requires forall x :: x in fixed ==> 0 <= x < n
    ensures |Without(tour, fixed)| == n - |fixed|
  {
    var rest := Without(tour, fixed);
    PermutationCoversCities(tour, n);
    WithoutDistinct(tour, fixed);
    DistinctCard(rest);
    DistinctCard(fixed);
    CitiesCard(n);
    WithoutMembers(tour, fixed);
    forall x ensures x in Elements(rest) <==> x in Cities(n) - Elements(fixed) {
      assert x in Elements(tour) <==> x in Cities(n);
    }
    assert Elements(rest) == Cities(n) - Elements(fixed);
    SubsetDifferenceCard(Cities(n), Elements(fixed));
  }

  /** For permutations and in-range cut points the LINQ pipeline is plain slicing: the fixed
      gene is parent1[s..e], the rest has n - (e - s + 1) values, and the child is
      rest[..s] + fixed gene + rest[s..]. */
  lemma XoverSplit(parent1: seq<int>, parent2: seq<int>, coord1: int, coord2: int, n: nat)
    requires IsPermutation(parent1, n) && IsPermutation(parent2, n)
    requires 0 <= coord1 < n && 0 <= coord2 < n
    ensures var s, e := Start(coord1, coord2), End(coord1, coord2);
      var rest := RestOfSecondParent(parent1, parent2, coord1, coord2);
      && FixedGene(parent1, coord1, coord2) == parent1[s..e + 1]
      && rest == Without(parent2, parent1[s..e + 1])
      && |rest| == n - (e - s + 1)
      && Xover(parent1, parent2, coord1, coord2)
         == Without(parent2, parent1[s..e + 1])[..s] + parent1[s..e + 1] + Without(parent2, parent1[s..e + 1])[s..]
  {
    var s, e := Start(coord1, coord2), End(coord1, coord2);
    FixedGeneIsSlice(parent1, coord1, coord2);
    SliceRestSize(parent1, parent2, s, e, n);
    XoverUnfold(parent1, parent2, coord1, coord2);
  }

  /** Parent 2 without the slice parent1[s..e] keeps n - (e - s + 1) values. */
  lemma SliceRestSize(parent1: seq<int>, parent2: seq<int>, s: int, e: int, n: nat)
    requires IsPermutation(parent1, n) && IsPermutation(parent2, n) && 0 <= s <= e < n
    ensures |Without(parent2, parent1[s..e + 1])| == n - (e - s + 1)
  {
    var fixed := parent1[s..e + 1];
    SliceDistinct(parent1, s, e + 1);
    forall x | x in fixed ensures 0 <= x < n {
      var i :| 0 <= i < |fixed| && fixed[i] == x;
      assert fixed[i] == parent1[s + i];
    }
    WithoutCitiesSize(parent2, fixed, n);
  }

  /** Once the fixed gene is known to be the slice and the rest is long enough, Take and Skip
      on the rest are plain slicing. */
  lemma XoverUnfold(parent1: seq<int>, parent2: seq<int>, coord1: int, coord2: int)
    requires 0 <= Start(coord1, coord2) <= End(coord1, coord2) < |parent1|
    requires var s, e := Start(coord1, coord2), End(coord1, coord2);
      FixedGene(parent1, coord1, coord2) == parent1[s..e + 1] && s <= |Without(parent2, parent1[s..e + 1])|
    ensures var s, e := Start(coord1, coord2), End(coord1, coord2);
      && RestOfSecondParent(parent1, parent2, coord1, coord2) == Without(parent2, parent1[s..e + 1])
      && Xover(parent1, parent2, coord1, coord2)
         == Without(parent2, parent1[s..e + 1])[..s] + parent1[s..e + 1] + Without(parent2, parent1[s..e + 1])[s..]
  {
    var s, e := Start(coord1, coord2), End(coord1, coord2);
    TakeSkipInRange(Without(parent2, parent1[s..e + 1]), s);
  }

  /** The child of two permutations of 0..n-1 is again a permutation of 0..n-1. */
  lemma XoverIsPermutation(parent1: seq<int>, parent2: seq<int>, coord1: int, coord2: int, n: nat)
    requires IsPermutation(parent1, n) && IsPermutation(parent2, n)
    requires 0 <= coord1 < n && 0 <= coord2 < n
    ensures IsPermutation(Xover(parent1, parent2, coord1, coord2), n)
    ensures forall v :: 0 <= v < n ==> v in Xover(parent1, parent2, coord1, coord2)
  {
    XoverSplit(parent1, parent2, coord1, coord2, n);
    SplicedPermutation(parent1, parent2, Start(coord1, coord2), End(coord1, coord2), n);
  }

  /** The slice parent1[s..e] spliced at s into parent 2 without the slice's values is a
      tour that visits every city. */
  lemma SplicedPermutation(parent1: seq<int>, parent2: seq<int>, s: int, e: int, n: nat)
    requires IsPermutation(parent1, n) && IsPermutation(parent2, n) && 0 <= s <= e < n
    ensures |Without(parent2, parent1[s..e + 1])| == n - (e - s + 1)
    ensures var fixed := parent1[s..e + 1];
      var rest := Without(parent2, fixed);
      && IsPermutation(rest[..s] + fixed + rest[s..], n)
      && forall v :: 0 <= v < n ==> v in rest[..s] + fixed + rest[s..]
  {
    var fixed := parent1[s..e + 1];
    var rest := Without(parent2, fixed);
    XoverPartsValid(parent1, parent2, s, e, n);
    SliceRestSize(parent1, parent2, s, e, n);
    SpliceIsPermutation(rest, fixed, s, n);
    PermutationCoversCities(rest[..s] + fixed + rest[s..], n);
  }

  /** The slice of parent 1 and the rest of parent 2 are each without repeats, hold cities
      only, and share no city. */
  lemma XoverPartsValid(parent1: seq<int>, parent2: seq<int>, s: int, e: int, n: nat)
    requires IsPermutation(parent1, n) && IsPermutation(parent2, n) && 0 <= s <= e < n
    ensures var fixed := parent1[s..e + 1];
      Distinct(fixed) && forall i :: 0 <= i < |fixed| ==> 0 <= fixed[i] < n
    ensures var fixed := parent1[s..e + 1];
      var rest := Without(parent2, fixed);
      && Distinct(rest)
      && (forall i :: 0 <= i < |rest| ==> 0 <= rest[i] < n)
      && (forall x :: x in rest ==> x !in fixed)
  {
    var fixed := parent1[s..e + 1];
    SliceDistinct(parent1, s, e + 1);
    SliceInRange(parent1, s, e + 1, n);
    WithoutDistinct(parent2, fixed);
    WithoutInRange(parent2, fixed, n);
    WithoutMembers(parent2, fixed);
  }

  /** The child agrees with parent 1 on every position of the slice [startInd..endInd]. */
  lemma XoverKeepsSegment(parent1: seq<int>, parent2: seq<int>, coord1: int, coord2: int, n: nat)
    requires IsPermutation(parent1, n) && IsPermutation(parent2, n)
    requires 0 <= coord1 < n && 0 <= coord2 < n
    ensures |Xover(parent1, parent2, coord1, coord2)| == n
    ensures forall i :: Start(coord1, coord2) <= i <= End(coord1, coord2) ==>
              Xover(parent1, parent2, coord1, coord2)[i] == parent1[i]
  {
    XoverSplit(parent1, parent2, coord1, coord2, n);
  }

  /** Outside the slice the child is parent 2 without the slice's values, in parent 2's order:
      its first startInd values and its values after endInd, put together, are that list. */
  lemma XoverFillsFromSecondParent(parent1: seq<int>, parent2: seq<int>, coord1: int, coord2: int, n: nat)
    requires IsPermutation(parent1, n) && IsPermutation(parent2, n)
    requires 0 <= coord1 < n && 0 <= coord2 < n
    ensures var child := Xover(parent1, parent2, coord1, coord2);
      var s, e := Start(coord1, coord2), End(coord1, coord2);
      var rest := Without(parent2, parent1[s..e + 1]);
      && |child| == n
      && child[..s] + child[e + 1..] == rest
  {
    XoverSplit(parent1, parent2, coord1, coord2, n);
    var s, e := Start(coord1, coord2), End(coord1, coord2);
    SpliceCutOut(Without(parent2, parent1[s..e + 1]), parent1[s..e + 1], s);
  }

  /** The values the child takes from parent 2 keep parent 2's relative order. */
  lemma XoverKeepsSecondParentOrder(parent1: seq<int>, parent2: seq<int>, coord1: int, coord2: int, n: nat)
    requires IsPermutation(parent1, n) && IsPermutation(parent2, n)
    requires 0 <= coord1 < n && 0 <= coord2 < n
    ensures var child := Xover(parent1, parent2, coord1, coord2);
      var s, e := Start(coord1, coord2), End(coord1, coord2);
      |child| == n && InOrderOf(child[..s] + child[e + 1..], parent2)
  {
    var s, e := Start(coord1, coord2), End(coord1, coord2);
    var child := Xover(parent1, parent2, coord1, coord2);
    var rest := Without(parent2, parent1[s..e + 1]);
    XoverFillsFromSecondParent(parent1, parent2, coord1, coord2, n);
    FilteredInOrder(child[..s] + child[e + 1..], parent2, parent1[s..e + 1]);
  }

  /** Whatever equals parent 2 filtered keeps parent 2's order. */
  lemma FilteredInOrder(r: seq<int>, s: seq<int>, fixed: seq<int>)
    requires Distinct(s) && r == Without(s, fixed)
    ensures InOrderOf(r, s)
  {
    WithoutKeepsOrder(s, fixed);
  }

  /** Splicing values in 0..n-1 into values in 0..n-1 gives values in 0..n-1. */
  lemma SpliceInRange(a: seq<int>, b: seq<int>, k: int, n: int)
    requires 0 <= k <= |a|
    requires forall i :: 0 <= i < |a| ==> 0 <= a[i] < n
    requires forall i :: 0 <= i < |b| ==> 0 <= b[i] < n
    ensures forall i :: 0 <= i < |a[..k] + b + a[k..]| ==> 0 <= (a[..k] + b + a[k..])[i] < n
  {
    var r := a[..k] + b + a[k..];
    forall i | 0 <= i < |r| ensures 0 <= r[i] < n {
      if i < k {
        assert r[i] == a[i];
      } else if i < k + |b| {
        assert r[i] == b[i - k];
      } else {
        assert r[i] == a[i - |b|];
      }
    }
  }

  /** Cutting the inserted block out of a splice gives back the sequence it went into. */
  lemma SpliceCutOut(r: seq<int>, b: seq<int>, k: int)
    requires 0 <= k <= |r|
    ensures var c := r[..k] + b + r[k..]; c[..k] + c[k + |b|..] == r
  {
    var c := r[..k] + b + r[k..];
    assert c[..k] == r[..k];
    assert c[k + |b|..] == r[k..];
    assert r[..k] + r[k..] == r;
  }

  /** Splicing a cut-out slice back where it was restores the sequence. */
  lemma SpliceBack(p: seq<int>, lo: int, hi: int)
    requires 0 <= lo <= hi <= |p|
    ensures var r := p[..lo] + p[hi..]; r[..lo] + p[lo..hi] + r[lo..] == p
  {
    var r := p[..lo] + p[hi..];
    assert r[..lo] == p[..lo];
    assert r[lo..] == p[hi..];
    SliceSplit(p, lo, hi);
  }

  /** A slice of values in 0..n-1 has values in 0..n-1. */
  lemma SliceInRange(p: seq<int>, lo: int, hi: int, n: int)
    requires 0 <= lo <= hi <= |p|
    requires forall i :: 0 <= i < |p| ==> 0 <= p[i] < n
    ensures forall i :: 0 <= i < hi - lo ==> 0 <= p[lo..hi][i] < n
  {
    forall i | 0 <= i < hi - lo ensures 0 <= p[lo..hi][i] < n {
      assert p[lo..hi][i] == p[lo + i];
    }
  }

  /** Without keeps only values of s, so values in 0..n-1 stay in 0..n-1. */
  lemma {:induction false} WithoutInRange(s: seq<int>, fixed: seq<int>, n: int)
    requires forall i :: 0 <= i < |s| ==> 0 <= s[i] < n
    ensures forall i :: 0 <= i < |Without(s, fixed)| ==> 0 <= Without(s, fixed)[i] < n
  {
    if s != [] {
      assert forall i :: 0 <= i < |s| - 1 ==> s[1..][i] == s[i + 1];
      WithoutInRange(s[1..], fixed, n);
    }
  }

  /** n distinct values in 0..n-1, as a block spliced into a disjoint rest: a permutation. */
  lemma SpliceIsPermutation(rest: seq<int>, fixed: seq<int>, k: int, n: nat)
    requires Distinct(rest) && Distinct(fixed) && 0 <= k <= |rest| && |rest| + |fixed| == n
    requires forall x :: x in rest ==> x !in fixed
    requires forall i :: 0 <= i < |rest| ==> 0 <= rest[i] < n
    requires forall i :: 0 <= i < |fixed| ==> 0 <= fixed[i] < n
    ensures IsPermutation(rest[..k] + fixed + rest[k..], n)
  {
    DistinctSplice(rest, fixed, k);
    SpliceInRange(rest, fixed, k, n);
  }

  /** In a sequence without repeats, the value at position i outside the slice [lo..hi)
      does not occur in the slice. */
  lemma OutsideSlice(p: seq<int>, lo: int, hi: int, i: int)
    requires Distinct(p) && 0 <= lo <= hi <= |p| && 0 <= i < |p| && !(lo <= i < hi)
    ensures p[i] !in p[lo..hi]
  {
    forall k | 0 <= k < hi - lo ensures p[lo..hi][k] != p[i] {
      assert p[lo..hi][k] == p[lo + k];
    }
  }

  /** In a sequence without repeats, no value before or after the slice [lo..hi) occurs in it. */
  lemma SliceApart(p: seq<int>, lo: int, hi: int)
    requires Distinct(p) && 0 <= lo <= hi <= |p|
    ensures forall i :: 0 <= i < |p[..lo]| ==> p[..lo][i] !in p[lo..hi]
    ensures forall i :: 0 <= i < |p[hi..]| ==> p[hi..][i] !in p[lo..hi]
  {
    forall i | 0 <= i < lo ensures p[..lo][i] !in p[lo..hi] {
      OutsideSlice(p, lo, hi, i);
    }
    forall i | 0 <= i < |p| - hi ensures p[hi..][i] !in p[lo..hi] {
      OutsideSlice(p, lo, hi, hi + i);
    }
  }

  lemma WithoutThree(a: seq<int>, b: seq<int>, c: seq<int>, fixed: seq<int>)
    ensures Without(a + b + c, fixed) == Without(a, fixed) + Without(b, fixed) + Without(c, fixed)
  {
    WithoutConcat(a + b, c, fixed);
    WithoutConcat(a, b, fixed);
  }

  /** Removing the values of a block from a sequence it sits in, and whose other values it
      does not share, cuts the block out. */
  lemma WithoutBlock(a: seq<int>, b: seq<int>, c: seq<int>)
    requires forall i :: 0 <= i < |a| ==> a[i] !in b
    requires forall i :: 0 <= i < |c| ==> c[i] !in b
    ensures Without(a + b + c, b) == a + c
  {
    WithoutDisjoint(a, b);
    WithoutDisjoint(c, b);
    WithoutContained(b, b);
    WithoutThree(a, b, c, b);
  }

  /** A sequence is its three slices put back together. This is a step Dafny proves on its
      own; it is a separate lemma so that it is proved apart from the facts about `Without`
      that surround its one use. */
  lemma SliceSplit(p: seq<int>, lo: int, hi: int)
    requires 0 <= lo <= hi <= |p|
    ensures p[..lo] + p[lo..hi] + p[hi..] == p
  {
  }

  /** Removing one of its own slices from a sequence without repeats cuts that slice out. */
  lemma WithoutOwnSlice(p: seq<int>, lo: int, hi: int)
    requires Distinct(p) && 0 <= lo <= hi <= |p|
    ensures Without(p, p[lo..hi]) == p[..lo] + p[hi..]
  {
    SliceApart(p, lo, hi);
    WithoutBlock(p[..lo], p[lo..hi], p[hi..]);
    SliceSplit(p, lo, hi);
  }

  /** The order of the cut points does not matter. */
  lemma XoverSymmetric(parent1: seq<int>, parent2: seq<int>, coord1: int, coord2: int)
    ensures Xover(parent1, parent2, coord1, coord2) == Xover(parent1, parent2, coord2, coord1)
  {
    assert Start(coord1, coord2) == Start(coord2, coord1) && End(coord1, coord2) == End(coord2, coord1);
  }

  /** Crossing a permutation with itself gives it back unchanged. */
  lemma XoverWithItself(parent: seq<int>, coord1: int, coord2: int, n: nat)
    requires IsPermutation(parent, n)
    requires 0 <= coord1 < n && 0 <= coord2 < n
    ensures Xover(parent, parent, coord1, coord2) == parent
  {
    XoverSplit(parent, parent, coord1, coord2, n);
    var s, e := Start(coord1, coord2), End(coord1, coord2);
    WithoutOwnSlice(parent, s, e + 1);
    SpliceBack(parent, s, e + 1);
  }
}
