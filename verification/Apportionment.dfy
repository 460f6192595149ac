/**
 * Largest-remainder apportionment of a ward population onto mesh cells:
 * scripts/build-nagoya-population-mesh.py.
 *
 * Every cell gets the floor of its exact share, and the cells with the largest fractional
 * parts get one more until the population is used up; equal fractions keep their cell order.
 */
module Apportionment {
  import opened Common

  function SumR(s: seq<real>): real {
    if s == [] then 0.0 else SumR(s[..|s| - 1]) + s[|s| - 1]
  }

  function SumI(s: seq<int>): int {
    if s == [] then 0 else SumI(s[..|s| - 1]) + s[|s| - 1]
  }

  // ------------------------------------------------------------------ exact shares

  function Share(population: int, weight: real, total: real): real
    requires total != 0.0
  {
    population as real * weight / total
  }

  function Shares(population: int, weights: seq<real>): (shares: seq<real>)
    requires SumR(weights) != 0.0
    ensures |shares| == |weights|
    ensures forall i :: 0 <= i < |weights| ==> shares[i] == Share(population, weights[i], SumR(weights))
  {
    seq(|weights|, i requires 0 <= i < |weights| => Share(population, weights[i], SumR(weights)))
  }

  function Floors(shares: seq<real>): (floors: seq<int>)
    ensures |floors| == |shares|
    ensures forall i :: 0 <= i < |shares| ==> floors[i] == shares[i].Floor
  {
    seq(|shares|, i requires 0 <= i < |shares| => shares[i].Floor)
  }

  function Fraction(share: real): real {
    share - share.Floor as real
  }

  function Fractions(shares: seq<real>): (fractions: seq<real>)
    ensures |fractions| == |shares|
    ensures forall i :: 0 <= i < |shares| ==> fractions[i] == Fraction(shares[i])
    ensures forall i :: 0 <= i < |shares| ==> 0.0 <= fractions[i] < 1.0
  {
    seq(|shares|, i requires 0 <= i < |shares| => Fraction(shares[i]))
  }

  lemma QuotientIs(q: real, n: real, d: real)
    requires d != 0.0 && q * d == n
    ensures n / d == q
  {
    assert (n / d - q) * d == 0.0;
  }

  lemma ShareAdds(population: int, a: real, b: real, total: real)
    requires total != 0.0
    ensures Share(population, a + b, total) == Share(population, a, total) + Share(population, b, total)
  {
    var p, qa, qb := population as real, Share(population, a, total), Share(population, b, total);
    assert qa * total == p * a && qb * total == p * b;
    assert (qa + qb) * total == p * (a + b);
    QuotientIs(qa + qb, p * (a + b), total);
  }

  lemma {:induction false} PartialShares(population: int, weights: seq<real>, total: real, shares: seq<real>)
    requires total != 0.0 && |shares| == |weights|
    requires forall i :: 0 <= i < |weights| ==> shares[i] == Share(population, weights[i], total)
    ensures SumR(shares) == Share(population, SumR(weights), total)
    decreases |weights|
  {
    if weights != [] {
      var last := |weights| - 1;
      PartialShares(population, weights[..last], total, shares[..last]);
      ShareAdds(population, SumR(weights[..last]), weights[last], total);
    }
  }

  lemma SharesSumToPopulation(population: int, weights: seq<real>)
    requires SumR(weights) != 0.0
    ensures SumR(Shares(population, weights)) == population as real
  {
    var total := SumR(weights);
    PartialShares(population, weights, total, Shares(population, weights));
    QuotientIs(population as real, population as real * total, total);
  }

  lemma {:induction false} FloorsAndFractions(shares: seq<real>)
    ensures SumR(Fractions(shares)) + SumI(Floors(shares)) as real == SumR(shares)
    ensures shares != [] ==> 0.0 <= SumR(Fractions(shares)) < |shares| as real
    decreases |shares|
  {
    if shares != [] {
      var init := shares[..|shares| - 1];
      FloorsAndFractions(init);
      assert Fractions(shares)[..|init|] == Fractions(init);
      assert Floors(shares)[..|init|] == Floors(init);
    }
  }

  // ------------------------------------------------------------------ stable descending order

  predicate Precedes(keys: seq<real>, i: nat, j: nat)
    requires i < |keys| && j < |keys|
  {
    keys[i] > keys[j] || (keys[i] == keys[j] && i < j)
  }

  predicate Within(s: seq<nat>, n: nat) {
    forall a :: 0 <= a < |s| ==> s[a] < n
  }

  ghost predicate Ordered(keys: seq<real>, order: seq<nat>) {
    && Within(order, |keys|)
    && (forall a, b :: 0 <= a < b < |order| ==> Precedes(keys, order[a], order[b]))
  }

  function Insert(keys: seq<real>, order: seq<nat>, i: nat): (r: seq<nat>)
    requires i < |keys| && Within(order, |keys|)
    ensures |r| == |order| + 1
    ensures forall j :: j in r <==> j in order || j == i
    ensures forall a :: 0 <= a < |r| ==> r[a] == i || r[a] in order
  {
    if order == [] || Precedes(keys, order[|order| - 1], i) then order + [i]
    else
      assert order == order[..|order| - 1] + [order[|order| - 1]];
      Insert(keys, order[..|order| - 1], i) + [order[|order| - 1]]
  }

  /** The language's stable sort by key, reversed: largest key first, ties by index. */
  function SortedDescending(keys: seq<real>, n: nat): (order: seq<nat>)
    requires n <= |keys|
    ensures |order| == n && Within(order, n)
    ensures forall i: nat :: i in order <==> i < n
  {
    if n == 0 then [] else Insert(keys, SortedDescending(keys, n - 1), n - 1)
  }

  lemma {:induction false} OrderedAppend(keys: seq<real>, r: seq<nat>, last: nat)
    requires Ordered(keys, r) && last < |keys| && forall j :: j in r ==> j < |keys| && Precedes(keys, j, last)
    ensures Ordered(keys, r + [last])
  {
    hide Precedes;
    forall a | 0 <= a < |r| ensures Precedes(keys, r[a], last) {
      assert r[a] in r;
    }
  }

  /** What the last of an ordered list precedes, all of it precedes. */
  lemma {:induction false} AllPrecede(keys: seq<real>, order: seq<nat>, i: nat, j: nat)
    requires Ordered(keys, order) && order != [] && i < |keys| && j in order
    requires Precedes(keys, order[|order| - 1], i)
    ensures j < |keys| && Precedes(keys, j, i)
  {
    var a :| 0 <= a < |order| && order[a] == j;
    if a < |order| - 1 {
      assert Precedes(keys, order[a], order[|order| - 1]);
    }
  }

  lemma NotPreceded(keys: seq<real>, last: nat, i: nat)
    requires last < |keys| && i < |keys| && i != last && !Precedes(keys, last, i)
    ensures Precedes(keys, i, last)
  {}

  lemma {:induction false} InsertOrdered(keys: seq<real>, order: seq<nat>, i: nat)
    requires i < |keys| && Ordered(keys, order) && i !in order
    ensures Ordered(keys, Insert(keys, order, i))
    decreases |order|
  {
    hide Precedes;
    if order == [] || Precedes(keys, order[|order| - 1], i) {
      forall j | j in order ensures j < |keys| && Precedes(keys, j, i) {
        AllPrecede(keys, order, i, j);
      }
      OrderedAppend(keys, order, i);
    } else {
      var init, last := order[..|order| - 1], order[|order| - 1];
      assert order == init + [last];
      InsertOrdered(keys, init, i);
      NotPreceded(keys, last, i);
      forall j | j in Insert(keys, init, i) ensures j < |keys| && Precedes(keys, j, last) {
        if j != i {
          var a :| 0 <= a < |init| && init[a] == j;
          assert Precedes(keys, order[a], order[|order| - 1]);
        }
      }
      OrderedAppend(keys, Insert(keys, init, i), last);
    }
  }

  lemma NothingOrdered(keys: seq<real>)
    ensures Ordered(keys, [])
  {}

  lemma {:induction false} SortedDescendingOrdered(keys: seq<real>, n: nat)
    requires n <= |keys|
    ensures Ordered(keys, SortedDescending(keys, n))
  {
    hide Ordered, Insert;
    NothingOrdered(keys);
    if n > 0 {
      SortedDescendingOrdered(keys, n - 1);
      InsertOrdered(keys, SortedDescending(keys, n - 1), n - 1);
    }
  }

  // ------------------------------------------------------------------ the allocation

  function Remainder(population: int, shares: seq<real>): int {
    population - SumI(Floors(shares))
  }

  function Order(shares: seq<real>): (order: seq<nat>)
    ensures |order| == |shares| && Within(order, |shares|)
    ensures forall i: nat :: i in order <==> i < |shares|
  {
    SortedDescending(Fractions(shares), |shares|)
  }

  function Bonus(chosen: seq<nat>, i: nat): int {
    if i in chosen then 1 else 0
  }

  lemma RemainderInRange(population: int, weights: seq<real>)
    requires weights != [] && SumR(weights) != 0.0
    ensures 0 <= Remainder(population, Shares(population, weights)) < |weights|
    ensures Remainder(population, Shares(population, weights)) as real
            == SumR(Fractions(Shares(population, weights)))
  {
    SharesSumToPopulation(population, weights);
    FloorsAndFractions(Shares(population, weights));
  }

  /** The cells that receive one more: the head of the order. */
  function Chosen(population: int, weights: seq<real>): (chosen: seq<nat>)
    requires weights != [] && SumR(weights) != 0.0
  {
    RemainderInRange(population, weights);
    var shares := Shares(population, weights);
    Order(shares)[..Remainder(population, shares)]
  }

  function Allocation(population: int, weights: seq<real>): (rounded: seq<int>)
    requires weights != [] && SumR(weights) != 0.0
    ensures |rounded| == |weights|
  {
    var shares, chosen := Shares(population, weights), Chosen(population, weights);
    seq(|weights|, i requires 0 <= i < |weights| => shares[i].Floor + Bonus(chosen, i))
  }

  lemma NoBonus(n: nat)
    ensures forall i :: 0 <= i < n ==> Bonus([], i) == 0
  {}

  lemma BonusOfOneMore(chosen: seq<nat>, c: nat, n: nat)
    requires c !in chosen
    ensures forall i :: 0 <= i < n ==> Bonus(chosen + [c], i) == Bonus(chosen, i) + if i == c then 1 else 0
  {}

  method Allocate(population: int, weights: seq<real>) returns (rounded: seq<int>)
    requires weights != [] && SumR(weights) != 0.0
    ensures rounded == Allocation(population, weights)
  {
    hide Share, Shares, Fraction, SumI, SumR, Bonus, SortedDescending;
    var shares := Shares(population, weights);
    rounded := Floors(shares);
    NoBonus(|weights|);
    var remainder := population - SumI(rounded);
    RemainderInRange(population, weights);
    var order := Order(shares);
    ghost var keys := Fractions(shares);
    SortedDescendingOrdered(keys, |shares|);
    for k := 0 to remainder
      invariant |rounded| == |weights|
      invariant forall i :: 0 <= i < |weights| ==> rounded[i] == shares[i].Floor + Bonus(order[..k], i)
    {
      assert order[k] in order;
      assert order[..k + 1] == order[..k] + [order[k]];
      BonusOfOneMore(order[..k], order[k], |weights|);
      rounded := rounded[order[k] := rounded[order[k]] + 1];
    }
  }

  // ------------------------------------------------------------------ conservation and quota

  function Bonuses(chosen: seq<nat>, n: nat): (r: seq<int>)
    ensures |r| == n && forall i :: 0 <= i < n ==> r[i] == Bonus(chosen, i)
  {
    seq(n, i requires 0 <= i < n => Bonus(chosen, i))
  }

  ghost predicate Distinct(s: seq<nat>) {
    forall a, b :: 0 <= a < b < |s| ==> s[a] != s[b]
  }

  lemma {:induction false} SumOfUpdate(s: seq<int>, i: nat, v: int)
    requires i < |s|
    ensures SumI(s[i := v]) == SumI(s) - s[i] + v
    decreases |s|
  {
    var last := |s| - 1;
    if i == last {
      assert s[i := v][..last] == s[..last];
    } else {
      assert s[i := v][..last] == s[..last][i := v];
      SumOfUpdate(s[..last], i, v);
    }
  }

  lemma {:induction false} SumOfZeros(n: nat)
    ensures SumI(Bonuses([], n)) == 0
  {
    if n > 0 {
      assert Bonuses([], n)[..n - 1] == Bonuses([], n - 1);
      SumOfZeros(n - 1);
    }
  }

  /** Distinct cells receive exactly as many extra people as there are cells. */
  lemma {:induction false} BonusTotal(chosen: seq<nat>, n: nat)
    requires Distinct(chosen) && Within(chosen, n)
    ensures SumI(Bonuses(chosen, n)) == |chosen|
    decreases |chosen|
  {
    if chosen == [] {
      SumOfZeros(n);
    } else {
      var init, last := chosen[..|chosen| - 1], chosen[|chosen| - 1];
      assert chosen == init + [last];
      BonusTotal(init, n);
      assert Bonuses(chosen, n) == Bonuses(init, n)[last := 1];
      SumOfUpdate(Bonuses(init, n), last, 1);
    }
  }

  lemma {:induction false} ChosenDistinct(population: int, weights: seq<real>)
    requires weights != [] && SumR(weights) != 0.0
    ensures var chosen := Chosen(population, weights);
            Distinct(chosen) && Within(chosen, |weights|)
  {
    hide Share, Fraction, SumR, SumI;
    var shares := Shares(population, weights);
    SortedDescendingOrdered(Fractions(shares), |shares|);
    RemainderInRange(population, weights);
  }

  lemma {:induction false} SumOfPairs(a: seq<int>, b: seq<int>, c: seq<int>)
    requires |a| == |b| == |c| && forall i :: 0 <= i < |a| ==> c[i] == a[i] + b[i]
    ensures SumI(c) == SumI(a) + SumI(b)
    decreases |a|
  {
    if a != [] {
      var last := |a| - 1;
      SumOfPairs(a[..last], b[..last], c[..last]);
    }
  }

  /** The ward population is conserved exactly. */
  lemma {:induction false} AllocationConserves(population: int, weights: seq<real>)
    requires weights != [] && SumR(weights) != 0.0
    ensures SumI(Allocation(population, weights)) == population
  {
    var shares, chosen := Shares(population, weights), Chosen(population, weights);
    RemainderInRange(population, weights);
    ChosenDistinct(population, weights);
    BonusTotal(chosen, |weights|);
    SumOfPairs(Floors(shares), Bonuses(chosen, |weights|), Allocation(population, weights));
  }

  lemma {:induction false} SumBelow(a: seq<real>, b: seq<int>)
    requires |a| == |b| && forall i :: 0 <= i < |a| ==> a[i] <= b[i] as real
    ensures SumR(a) <= SumI(b) as real
    decreases |a|
  {
    if a != [] {
      var last := |a| - 1;
      SumBelow(a[..last], b[..last]);
    }
  }

  /** Behind a cell without a fraction nobody has one, so the fractions sum to less than the cells before it. */
  lemma {:induction false} FractionsBeforeWhole(keys: seq<real>, order: seq<nat>, k: nat)
    requires Ordered(keys, order) && k < |order| && forall i :: 0 <= i < |keys| ==> i in order
    requires (forall i :: 0 <= i < |keys| ==> keys[i] < 1.0) && keys[order[k]] <= 0.0
    ensures SumR(keys) <= k as real
  {
    hide SumR, SumI;
    var head := order[..k];
    forall i | 0 <= i < |keys| ensures keys[i] <= Bonus(head, i) as real {
      assert i in order;
      var a :| 0 <= a < |order| && order[a] == i;
      if a < k {
        assert head[a] == i;
      } else if a > k {
        assert Precedes(keys, order[k], order[a]);
      }
    }
    SumBelow(keys, Bonuses(head, |keys|));
    BonusTotal(head, |keys|);
  }

  // ------------------------------------------------------------------ monotonicity

  lemma NonNegativeQuotient(n: real, d: real)
    requires n >= 0.0 && d > 0.0
    ensures n / d >= 0.0
  {}

  lemma ShareMonotone(population: int, a: real, b: real, total: real)
    requires population >= 0 && total > 0.0 && a <= b
    ensures Share(population, a, total) <= Share(population, b, total)
  {
    ShareAdds(population, a, b - a, total);
    NonNegativeProduct(population as real, b - a);
    NonNegativeQuotient(population as real * (b - a), total);
  }

  /** The head of the order precedes everything behind it. */
  lemma HeadPrecedes(keys: seq<real>, order: seq<nat>, k: nat, i: nat, j: nat)
    requires Ordered(keys, order) && k <= |order|
    requires i in order && i !in order[..k] && j in order[..k]
    ensures Precedes(keys, j, i)
  {
    var a :| 0 <= a < k && order[a] == j;
    var b :| 0 <= b < |order| && order[b] == i;
  }

  lemma OrderOrdered(shares: seq<real>)
    ensures Ordered(Fractions(shares), Order(shares))
  {
    SortedDescendingOrdered(Fractions(shares), |shares|);
  }

  /** Only cells with a fractional share receive the extra person. */
  lemma {:induction false} ChosenAreFractional(population: int, weights: seq<real>, k: nat)
    requires weights != [] && SumR(weights) != 0.0 && k < |Chosen(population, weights)|
    ensures Chosen(population, weights)[k] < |weights|
    ensures Fraction(Shares(population, weights)[Chosen(population, weights)[k]]) > 0.0
  {
    hide Fraction, Share, SumR, SumI, SortedDescending, Ordered, Remainder;
    var shares, chosen := Shares(population, weights), Chosen(population, weights);
    var keys, order := Fractions(shares), Order(shares);
    RemainderInRange(population, weights);
    OrderOrdered(shares);
    assert chosen[k] == order[k] && order[k] in order;
    if keys[chosen[k]] <= 0.0 {
      FractionsBeforeWhole(keys, order, k);
      assert false;
    }
  }

  lemma CrossMultiply(p: real, w: real, total: real, s: real)
    requires total != 0.0 && s == p * w / total
    ensures s * total == p * w
  {}

  lemma ZeroFactor(p: real, a: real, b: real)
    requires p * a == p * b && a != b
    ensures p == 0.0
  {
    assert p * (a - b) == 0.0;
  }

  /** Equal shares of unequal weights mean there is nobody to distribute. */
  lemma SameShareSameWeight(population: int, weights: seq<real>, i: nat, j: nat)
    requires SumR(weights) != 0.0 && i < |weights| && j < |weights|
    requires Shares(population, weights)[i] == Shares(population, weights)[j] && weights[i] != weights[j]
    ensures population == 0 && Fraction(Shares(population, weights)[j]) == 0.0
  {
    hide SumR;
    var total, p := SumR(weights), population as real;
    var s := Share(population, weights[i], total);
    CrossMultiply(p, weights[i], total, s);
    CrossMultiply(p, weights[j], total, s);
    ZeroFactor(p, weights[i], weights[j]);
    QuotientIs(0.0, 0.0 * weights[j], total);
  }

  /** A heavier cell never gets fewer people than a lighter one. */
  lemma {:induction false} HeavierGetsNoLess(population: int, weights: seq<real>, i: nat, j: nat)
    requires population >= 0 && weights != [] && SumR(weights) > 0.0
    requires i < |weights| && j < |weights| && weights[i] > weights[j]
    ensures Allocation(population, weights)[i] >= Allocation(population, weights)[j]
  {
    hide Share, SumR, SumI, Order;
    var shares, chosen := Shares(population, weights), Chosen(population, weights);
    ShareMonotone(population, weights[j], weights[i], SumR(weights));
    if shares[i].Floor == shares[j].Floor && j in chosen && i !in chosen {
      RemainderInRange(population, weights);
      OrderOrdered(shares);
      HeadPrecedes(Fractions(shares), Order(shares), |chosen|, i, j);
      SameShareSameWeight(population, weights, i, j);
      var k :| 0 <= k < |chosen| && chosen[k] == j;
      ChosenAreFractional(population, weights, k);
    }
  }

  /** Every cell gets the floor or the ceiling of its exact share; a whole share is left alone. */
  lemma QuotaRule(population: int, weights: seq<real>, i: nat)
    requires weights != [] && SumR(weights) != 0.0 && i < |weights|
    ensures var share, got := Shares(population, weights)[i], Allocation(population, weights)[i];
            && share - 1.0 < got as real < share + 1.0
            && (share.Floor as real == share ==> got as real == share)
  {
    var chosen := Chosen(population, weights);
    if i in chosen {
      var k :| 0 <= k < |chosen| && chosen[k] == i;
      ChosenAreFractional(population, weights, k);
    }
  }

  /** Every cell holds less than one person more or fewer than its weight's part of the population. */
  lemma {:induction false} WithinOnePerson(population: int, weights: seq<real>, i: nat)
    requires weights != [] && SumR(weights) > 0.0 && i < |weights|
    ensures var whole, got := SumR(weights), Allocation(population, weights)[i] as real;
            population as real * weights[i] - whole < got * whole < population as real * weights[i] + whole
  {
    hide SumR, Chosen;
    QuotaRule(population, weights, i);
    var whole, got := SumR(weights), Allocation(population, weights)[i] as real;
    var share := Shares(population, weights)[i];
    hide Allocation, Shares;
    CrossMultiply(population as real, weights[i], whole, share);
    var low, high := (share - 1.0) * whole, (share + 1.0) * whole;
    assert low == share * whole - whole && high == share * whole + whole;
    ProductOrdered(share - 1.0, got, whole, low, got * whole);
    ProductOrdered(got, share + 1.0, whole, got * whole, high);
  }

  /** A cell is rounded up before every cell with a smaller fraction, and before later ones with the same. */
  lemma {:induction false} RoundedUpInOrder(population: int, weights: seq<real>, i: nat, j: nat)
    requires weights != [] && SumR(weights) != 0.0 && i < |weights| && j < |weights|
    requires Allocation(population, weights)[i] > Shares(population, weights)[i].Floor
    requires Allocation(population, weights)[j] <= Shares(population, weights)[j].Floor
    ensures var a, b := Shares(population, weights)[i], Shares(population, weights)[j];
            a - a.Floor as real > b - b.Floor as real || (a - a.Floor as real == b - b.Floor as real && i < j)
  {
    hide Share, SumR, SumI, Order;
    var shares, chosen := Shares(population, weights), Chosen(population, weights);
    RemainderInRange(population, weights);
    OrderOrdered(shares);
    HeadPrecedes(Fractions(shares), Order(shares), |chosen|, j, i);
  }

  // ------------------------------------------------------------------ optimality

  function Abs(x: real): real {
    if x < 0.0 then -x else x
  }

  /** Total absolute deviation of a candidate vector from the exact shares. */
  function Deviation(v: seq<int>, shares: seq<real>): real
    requires |v| == |shares|
  {
    if v == [] then 0.0
    else
      var last := |v| - 1;
      Deviation(v[..last], shares[..last]) + Abs(v[last] as real - shares[last])
  }

  function Priced(price: real, people: int): real {
    price * people as real
  }

  lemma PriceSplits(t: real, people: int)
    ensures Priced(1.0 - 2.0 * t, people) == people as real - 2.0 * (t * people as real)
  {}

  /** Nobody or fewer is the dearer the lower `t` is, and one or more the higher it is. */
  lemma ShareOfPrice(t: real, people: int)
    requires 0.0 <= t < 1.0
    ensures people <= 0 ==> t * people as real >= people as real
    ensures people >= 1 ==> t * people as real >= t
  {
    var y := people as real;
    if people <= 0 {
      NonNegativeProduct(1.0 - t, -y);
      assert (1.0 - t) * (-y) == t * y - y;
    } else {
      NonNegativeProduct(t, y - 1.0);
      assert t * (y - 1.0) == t * y - t;
    }
  }

  /**
   * One cell against the price `1 - 2t` of a person: with a fraction at least `t` the ceiling
   * is the cheapest integer, with a fraction at most `t` the floor is.
   */
  lemma CheapestInteger(v: int, share: real, bonus: int, t: real)
    requires 0.0 <= t < 1.0 && (bonus == 0 || bonus == 1)
    requires bonus == 1 ==> Fraction(share) >= t
    requires bonus == 0 ==> Fraction(share) <= t
    ensures var floor, price := share.Floor, 1.0 - 2.0 * t;
            Abs((floor + bonus) as real - share) - Priced(price, bonus)
            <= Abs(v as real - share) - Priced(price, v - floor)
  {
    var people := v - share.Floor;
    ShareOfPrice(t, people);
    PriceSplits(t, people);
    PriceSplits(t, bonus);
    assert t * bonus as real == if bonus == 1 then t else 0.0;
    hide Priced;
    assert v as real - share == people as real - Fraction(share);
  }

  lemma PriceAdds(price: real, a: int, b: int)
    ensures Priced(price, a + b) == Priced(price, a) + Priced(price, b)
  {}

  lemma PriceOfNobody(price: real)
    ensures Priced(price, 0) == 0.0
  {}

  lemma {:induction false} PricedDeviation(v: seq<int>, shares: seq<real>, bonuses: seq<int>, best: seq<int>, t: real)
    requires |v| == |shares| == |bonuses| == |best| && 0.0 <= t < 1.0
    requires forall i :: 0 <= i < |v| ==>
      && (bonuses[i] == 0 || bonuses[i] == 1) && best[i] == shares[i].Floor + bonuses[i]
      && (bonuses[i] == 1 ==> Fraction(shares[i]) >= t) && (bonuses[i] == 0 ==> Fraction(shares[i]) <= t)
    ensures Deviation(best, shares) - Priced(1.0 - 2.0 * t, SumI(bonuses))
            <= Deviation(v, shares) - Priced(1.0 - 2.0 * t, SumI(v) - SumI(Floors(shares)))
    decreases |v|
  {
    hide Abs, Fraction, Priced;
    PriceOfNobody(1.0 - 2.0 * t);
    if v != [] {
      var last := |v| - 1;
      PricedDeviation(v[..last], shares[..last], bonuses[..last], best[..last], t);
      CheapestInteger(v[last], shares[last], bonuses[last], t);
      assert Floors(shares)[..last] == Floors(shares[..last]);
      var price := 1.0 - 2.0 * t;
      PriceAdds(price, SumI(bonuses[..last]), bonuses[last]);
      PriceAdds(price, SumI(v[..last]) - SumI(Floors(shares[..last])), v[last] - shares[last].Floor);
    }
  }

  lemma OrderSplits(keys: seq<real>, order: seq<nat>, k: nat, i: nat)
    requires Ordered(keys, order) && k < |order| && i in order
    ensures if i in order[..k] then keys[i] >= keys[order[k]] else keys[i] <= keys[order[k]]
  {
    var a :| 0 <= a < |order| && order[a] == i;
    if a < k {
      assert order[..k][a] == i;
    } else if a > k {
      assert Precedes(keys, order[k], order[a]);
    }
  }

  /** No integer vector with the same total deviates less from the exact shares. */
  lemma {:induction false} AllocationOptimal(population: int, weights: seq<real>, v: seq<int>)
    requires weights != [] && SumR(weights) != 0.0
    requires |v| == |weights| && SumI(v) == population
    ensures Deviation(Allocation(population, weights), Shares(population, weights))
            <= Deviation(v, Shares(population, weights))
  {
    hide Share, Fraction, Deviation, SumR, SumI, Order;
    var shares, chosen := Shares(population, weights), Chosen(population, weights);
    var keys, order := Fractions(shares), Order(shares);
    RemainderInRange(population, weights);
    ChosenDistinct(population, weights);
    OrderOrdered(shares);
    var t := keys[order[|chosen|]];
    forall i | 0 <= i < |weights|
      ensures (i in chosen ==> keys[i] >= t) && (i !in chosen ==> keys[i] <= t)
    {
      OrderSplits(keys, order, |chosen|, i);
    }
    BonusTotal(chosen, |weights|);
    PricedDeviation(v, shares, Bonuses(chosen, |weights|), Allocation(population, weights), t);
  }

  // ------------------------------------------------------------------ the documented rule

  /** The first cell of the largest weight. */
  function Largest(weights: seq<real>): (i: nat)
    requires weights != []
    ensures i < |weights| && forall k :: 0 <= k < |weights| ==> weights[k] <= weights[i] && (k < i ==>
      weights[k] < weights[i])
  {
    var last := |weights| - 1;
    if last == 0 then 0
    else
      var before := Largest(weights[..last]);
      if weights[before] < weights[last] then last else before
  }

  /** What the comment in the script describes: the whole remainder goes to the largest cell. */
  function LargestCellRule(population: int, weights: seq<real>): seq<int>
    requires weights != [] && SumR(weights) != 0.0
  {
    var shares := Shares(population, weights);
    Floors(shares)[Largest(weights) := shares[Largest(weights)].Floor + Remainder(population, shares)]
  }

  /** No share has a larger fraction than share i, nor an equal one in front of it. */
  predicate LargestFraction(shares: seq<real>, i: nat)
    requires i < |shares|
  {
    forall k :: 0 <= k < |shares| ==>
      Fraction(shares[k]) <= Fraction(shares[i]) && (k < i ==> Fraction(shares[k]) < Fraction(shares[i]))
  }

  lemma {:induction false} FirstOfOrder(shares: seq<real>, i: nat)
    requires i < |shares|
    ensures Order(shares)[0] == i <==> LargestFraction(shares, i)
  {
    hide Fraction, SortedDescending;
    OrderOrdered(shares);
    var keys, order := Fractions(shares), Order(shares);
    var first := order[0];
    forall k | 0 <= k < |shares| && k != first
      ensures Fraction(shares[k]) < Fraction(shares[first]) || (Fraction(shares[k]) == Fraction(shares[first])
              && first < k)
    {
      assert k in order;
      var b :| 0 <= b < |order| && order[b] == k;
      assert Precedes(keys, order[0], order[b]);
      assert keys[k] == Fraction(shares[k]) && keys[first] == Fraction(shares[first]);
    }
    assert LargestFraction(shares, i) ==> Fraction(shares[first]) <= Fraction(shares[i]) && !(first < i && first != i);
  }

  /**
   * The code follows its comment exactly when nobody is left over, or one person is and no cell
   * has a larger fraction than the largest cell, nor an equal one in front of it.
   */
  lemma {:induction false} CommentHoldsIff(population: int, weights: seq<real>)
    requires weights != [] && SumR(weights) != 0.0
    ensures var shares := Shares(population, weights);
            var remainder := Remainder(population, shares);
            Allocation(population, weights) == LargestCellRule(population, weights)
            <==> remainder == 0 || (remainder == 1 && LargestFraction(shares, Largest(weights)))
  {
    hide Share, Fraction, SumR, SumI, Largest, SortedDescending, LargestFraction;
    RemainderInRange(population, weights);
    var shares, chosen := Shares(population, weights), Chosen(population, weights);
    var largest, remainder := Largest(weights), Remainder(population, shares);
    var allocation, rule := Allocation(population, weights), LargestCellRule(population, weights);
    FirstOfOrder(shares, largest);
    if remainder >= 1 {
      var first := Order(shares)[0];
      assert first == chosen[0] && first in chosen && first in Order(shares);
      assert allocation[first] == shares[first].Floor + 1;
      if remainder == 1 {
        assert chosen == [first];
      }
    }
  }

  /** A smaller cell can receive the person whom the comment gives to the largest one. */
  lemma {:induction false} SmallerCellPreferred()
    ensures SumR([1.0, 0.75]) == 1.75
    ensures Allocation(2, [1.0, 0.75]) == [1, 1] && LargestCellRule(2, [1.0, 0.75]) == [2, 0]
  {
    var weights := [1.0, 0.75];
    assert weights[..1] == [1.0] && weights[..1][..0] == [];
    assert SumR([1.0]) == 1.0;
    var shares := Shares(2, weights);
    assert shares == [2.0 / 1.75, 1.5 / 1.75];
    var floors := Floors(shares);
    assert floors == [1, 0] && floors[..1] == [1] && floors[..1][..0] == [];
    assert SumI([1]) == 1;
    var keys := Fractions(shares);
    assert keys == [0.25 / 1.75, 1.5 / 1.75];
    assert SortedDescending(keys, 1) == [0];
    assert [0][..0] == [];
    assert Order(shares) == [1, 0];
    assert Chosen(2, weights) == [1];
    assert Largest([1.0]) == 0 && Largest(weights) == 0;
  }

  // ------------------------------------------------------------------ non-negative cells

  /** The scan keeps only positive weights, so their sum is never zero. */
  lemma {:induction false} PositiveWeightsSum(weights: seq<real>)
    requires weights != [] && forall i :: 0 <= i < |weights| ==> weights[i] > 0.0
    ensures SumR(weights) > 0.0
    decreases |weights|
  {
    if |weights| > 1 {
      PositiveWeightsSum(weights[..|weights| - 1]);
    }
  }

  lemma ZeroShare(population: int, total: real)
    requires total != 0.0
    ensures Share(population, 0.0, total) == 0.0
  {
    QuotientIs(0.0, population as real * 0.0, total);
  }

  lemma {:induction false} NobodyOwes(population: int, weights: seq<real>, i: nat)
    requires population >= 0 && weights != [] && (forall k :: 0 <= k < |weights| ==> weights[k] > 0.0) && i < |weights|
    requires SumR(weights) > 0.0
    ensures Allocation(population, weights)[i] >= 0
  {
    hide Share;
    var total := SumR(weights);
    ShareMonotone(population, 0.0, weights[i], total);
    QuotientIs(0.0, population as real * 0.0, total);
    ZeroShare(population, total);
  }
}
