/**
 * The whole mesh build: `main` of scripts/build-nagoya-population-mesh.py.  Each ward is
 * scanned, its population is apportioned onto the found cells, inhabited cells are written, and
 * the grand total is checked against the census oracle.
 */
module PopulationMesh {
  import opened Common
  import opened MeshScan
  import opened Apportionment

  datatype Ward = Ward(population: nat, oracle: nat, polygons: seq<Polygon>)

  /** One written feature: its ward, its cell and its inhabitants. */
  datatype Feature = Feature(ward: nat, cell: Cell, population: int)

  datatype Failure = PopulationMismatch(ward: nat) | NoCells(ward: nat) | TotalMismatch

  function Weights(cells: seq<Cell>): (weights: seq<real>)
    ensures |weights| == |cells| && forall i :: 0 <= i < |cells| ==> weights[i] == cells[i].weight
  {
    seq(|cells|, i requires 0 <= i < |cells| => cells[i].weight)
  }

  function Total(features: seq<Feature>): int {
    if features == [] then 0 else Total(features[..|features| - 1]) + features[|features| - 1].population
  }

  function WardTotal(features: seq<Feature>, ward: nat): int {
    if features == [] then 0
    else
      var f := features[|features| - 1];
      WardTotal(features[..|features| - 1], ward) + if f.ward == ward then f.population else 0
  }

  function Census(wards: seq<Ward>): nat {
    if wards == [] then 0 else Census(wards[..|wards| - 1]) + wards[|wards| - 1].population
  }

  lemma {:induction false} TotalsSplit(a: seq<Feature>, b: seq<Feature>, ward: nat)
    ensures Total(a + b) == Total(a) + Total(b)
    ensures WardTotal(a + b, ward) == WardTotal(a, ward) + WardTotal(b, ward)
    decreases |b|
  {
    if b == [] {
      assert a + b == a;
    } else {
      TotalsSplit(a, b[..|b| - 1], ward);
      assert (a + b)[..|a + b| - 1] == a + b[..|b| - 1];
    }
  }

  /** The people of each scanned cell. */
  function Inhabitants(population: nat, cells: seq<Cell>): (people: seq<int>)
    ensures |people| == |cells|
  {
    var weights := Weights(cells);
    if cells == [] || SumR(weights) == 0.0 then seq(|cells|, _ => 0) else Allocation(population, weights)
  }

  /** Where a feature comes from: the ward and the position in its scan. */
  type Place = (nat, nat)

  /** One place after another, ward by ward and cell by cell. */
  ghost predicate Ascending(places: seq<Place>) {
    forall a, b :: 0 <= a < b < |places| ==>
      places[a].0 < places[b].0 || (places[a].0 == places[b].0 && places[a].1 < places[b].1)
  }

  /** The feature is the cell at the place, with the people of that cell. */
  predicate FeatureAt(f: Feature, place: Place, population: nat, cells: seq<Cell>) {
    place.1 < |cells| && f == Feature(place.0, cells[place.1], Inhabitants(population, cells)[place.1])
  }

  /** Less than one person more or fewer than the cell's part of the ward by weight. */
  predicate Proportionate(f: Feature, population: nat, cells: seq<Cell>) {
    var whole := SumR(Weights(cells));
    population as real * f.cell.weight - whole < f.population as real * whole
    < population as real * f.cell.weight + whole
  }

  lemma {:induction false} CellIsProportionate(f: Feature, place: Place, population: nat, cells: seq<Cell>)
    requires cells != [] && (forall cell <- cells :: cell.weight > 0.0) && FeatureAt(f, place, population, cells)
    ensures Proportionate(f, population, cells)
  {
    hide SumR, Allocation;
    var weights := Weights(cells);
    forall i | 0 <= i < |weights| ensures weights[i] > 0.0 {
      assert cells[i] in cells;
    }
    PositiveWeightsSum(weights);
    WithinOnePerson(population, weights, place.1);
  }

  lemma {:induction false} NothingTotalled()
    ensures Total([]) == SumI([]) == 0 && forall w :: WardTotal([], w) == 0
  {}

  lemma FeatureAdds(features: seq<Feature>, f: Feature)
    ensures Total(features + [f]) == Total(features) + f.population
    ensures forall w :: WardTotal(features + [f], w) == WardTotal(features, w) + if f.ward == w then f.population else 0
  {
    assert (features + [f])[..|features|] == features;
  }

  lemma {:induction false} PlaceAppended(places: seq<Place>, place: Place)
    requires Ascending(places)
    requires forall p <- places :: p.0 < place.0 || (p.0 == place.0 && p.1 < place.1)
    ensures Ascending(places + [place])
  {
    forall a | 0 <= a < |places| ensures places[a] in places {}
  }

  /** What is written for the first `n` cells: those with people, in scan order, each with its own. */
  ghost predicate CellsWritten(features: seq<Feature>, places: seq<Place>, ward: nat, population: nat,
                               cells: seq<Cell>, n: nat)
    requires n <= |cells|
  {
    && |features| == |places| && Ascending(places)
    && (forall k :: 0 <= k < |features| ==> FeatureAt(features[k], places[k], population, cells))
    && (forall k :: 0 <= k < |features| ==> Proportionate(features[k], population, cells))
    && (forall w: nat, i: nat :: (w, i) in places <==> w == ward && i < n && Inhabitants(population, cells)[i] > 0)
  }

  lemma {:induction false} NoCellWritten(ward: nat, population: nat, cells: seq<Cell>)
    ensures CellsWritten([], [], ward, population, cells, 0)
  {}

  lemma {:induction false} CellSkipped(features: seq<Feature>, places: seq<Place>, ward: nat, population: nat,
                                       cells: seq<Cell>, n: nat)
    requires n < |cells| && CellsWritten(features, places, ward, population, cells, n)
    requires Inhabitants(population, cells)[n] <= 0
    ensures CellsWritten(features, places, ward, population, cells, n + 1)
  {
    hide FeatureAt, Proportionate, Inhabitants, Ascending;
  }

  lemma {:induction false} CellWritten(features: seq<Feature>, places: seq<Place>, ward: nat, population: nat,
                                       cells: seq<Cell>, n: nat, f: Feature)
    requires n < |cells| && CellsWritten(features, places, ward, population, cells, n)
    requires FeatureAt(f, (ward, n), population, cells) && Proportionate(f, population, cells)
    requires Inhabitants(population, cells)[n] > 0
    ensures CellsWritten(features + [f], places + [(ward, n)], ward, population, cells, n + 1)
  {
    hide FeatureAt, Proportionate, Inhabitants, Ascending;
    forall p | p in places ensures p.0 == ward && p.1 < n {
      assert p == (p.0, p.1);
    }
    PlaceAppended(places, (ward, n));
  }

  lemma {:induction false} AllocationOfPositive(population: nat, cells: seq<Cell>)
    requires cells != [] && forall cell <- cells :: cell.weight > 0.0
    ensures SumR(Weights(cells)) > 0.0 && Inhabitants(population, cells) == Allocation(population, Weights(cells))
    ensures forall i :: 0 <= i < |cells| ==> Inhabitants(population, cells)[i] >= 0
    ensures SumI(Inhabitants(population, cells)) == population
  {
    hide Allocation, SumR, SumI;
    var weights := Weights(cells);
    forall i | 0 <= i < |weights| ensures weights[i] > 0.0 {
      assert cells[i] in cells;
    }
    PositiveWeightsSum(weights);
    AllocationConserves(population, weights);
    forall i | 0 <= i < |cells| ensures Allocation(population, weights)[i] >= 0 {
      NobodyOwes(population, weights, i);
    }
  }

  lemma SumStep(s: seq<int>, i: nat)
    requires i < |s|
    ensures SumI(s[..i + 1]) == SumI(s[..i]) + s[i]
  {
    assert s[..i + 1][..i] == s[..i];
  }

  /**
   * Cells that received nobody are skipped; every other cell is written in scan order with its
   * own people, and together they keep the ward's whole population.
   */
  method WriteWard(ward: nat, population: nat, cells: seq<Cell>)
    returns (features: seq<Feature>, ghost places: seq<Place>)
    requires cells != [] && forall cell <- cells :: cell.weight > 0.0
    ensures CellsWritten(features, places, ward, population, cells, |cells|)
    ensures Total(features) == population
    ensures forall w :: WardTotal(features, w) == if w == ward then population else 0
  {
    hide Allocation, Shares, Proportionate, CellsWritten, Inhabitants, SumR, SumI, Total, WardTotal;
    AllocationOfPositive(population, cells);
    var rounded := Allocate(population, Weights(cells));
    features, places := [], [];
    NoCellWritten(ward, population, cells);
    assert Total([]) == SumI([]) == 0 && (forall w :: WardTotal([], w) == 0) by { NothingTotalled(); }
    for i := 0 to |rounded|
      invariant CellsWritten(features, places, ward, population, cells, i)
      invariant Total(features) == SumI(rounded[..i])
      invariant forall w :: WardTotal(features, w) == if w == ward then SumI(rounded[..i]) else 0
    {
      SumStep(rounded, i);
      if rounded[i] > 0 {
        var f := Feature(ward, cells[i], rounded[i]);
        FeatureAdds(features, f);
        CellIsProportionate(f, (ward, i), population, cells);
        CellWritten(features, places, ward, population, cells, i, f);
        features, places := features + [f], places + [(ward, i)];
      } else {
        CellSkipped(features, places, ward, population, cells, i);
      }
    }
    assert rounded[..|rounded|] == rounded;
  }

  predicate GoodWard(ward: Ward) {
    ward.population == ward.oracle && FullScan(ward.polygons) != []
  }

  lemma ScannedWeightsPositive(polygons: seq<Polygon>)
    ensures forall cell <- FullScan(polygons) :: cell.weight > 0.0
  {
    hide GridCells;
    GridWeightsPositive(polygons, 0, ROWS, 0, COLUMNS);
  }

  lemma {:induction false} PlacesJoined(a: seq<Place>, b: seq<Place>, ward: nat)
    requires Ascending(a) && Ascending(b)
    requires (forall p <- a :: p.0 < ward) && (forall p <- b :: p.0 == ward)
    ensures Ascending(a + b)
  {
    forall i | 0 <= i < |a| ensures a[i] in a {}
    forall i | 0 <= i < |b| ensures b[i] in b {}
  }

  /** The features written for the first `n` wards, as `WriteWard` writes each of them. */
  ghost predicate Written(features: seq<Feature>, places: seq<Place>, wards: seq<Ward>, n: nat)
    requires n <= |wards|
  {
    && |features| == |places| && Ascending(places)
    && (forall k :: 0 <= k < |features| ==> places[k].0 < n)
    && (forall k :: 0 <= k < |features| ==>
          var ward := wards[places[k].0];
          FeatureAt(features[k], places[k], ward.population, FullScan(ward.polygons))
          && Proportionate(features[k], ward.population, FullScan(ward.polygons)))
    && (forall w: nat, i: nat :: (w, i) in places <==>
          w < n && i < |FullScan(wards[w].polygons)|
          && Inhabitants(wards[w].population, FullScan(wards[w].polygons))[i] > 0)
  }

  lemma {:induction false} NothingWritten(wards: seq<Ward>)
    ensures Written([], [], wards, 0)
  {}

  lemma {:induction false} WardWritten(features: seq<Feature>, places: seq<Place>, wards: seq<Ward>, n: nat,
                                       written: seq<Feature>, more: seq<Place>)
    requires n < |wards| && Written(features, places, wards, n)
    requires var population, cells := wards[n].population, FullScan(wards[n].polygons);
             CellsWritten(written, more, n, population, cells, |cells|)
    ensures Written(features + written, places + more, wards, n + 1)
  {
    hide FullScan, Inhabitants, Proportionate, FeatureAt, Ascending;
    forall p | p in places ensures p.0 < n {
      assert p == (p.0, p.1);
    }
    forall p | p in more ensures p.0 == n {
      assert p == (p.0, p.1);
    }
    PlacesJoined(places, more, n);
    forall k | 0 <= k < |written| ensures more[k] in more {}
  }

  /**
   * The build succeeds exactly when every ward agrees with its census entry, overlaps the grid,
   * and the wards add up to the census total.  It then writes every inhabited cell of every
   * ward, in scan order and with its own people, and the cells reproduce every ward.
   */
  method BuildMesh(wards: seq<Ward>, oracleTotal: nat)
    returns (r: Result<seq<Feature>, Failure>, ghost places: seq<Place>)
    requires forall k :: 0 <= k < |wards| ==> Drawn(wards[k].polygons)
    ensures r.Ok? <==>
      && (forall k :: 0 <= k < |wards| ==>
            wards[k].population == wards[k].oracle && FullScan(wards[k].polygons) != [])
      && Census(wards) == oracleTotal
    ensures r.Ok? ==> Written(r.value, places, wards, |wards|)
    ensures r.Ok? ==>
      && Total(r.value) == oracleTotal
      && (forall k :: 0 <= k < |wards| ==> WardTotal(r.value, k) == wards[k].population)
    ensures r == Err(TotalMismatch) <==>
      && (forall k :: 0 <= k < |wards| ==>
            wards[k].population == wards[k].oracle && FullScan(wards[k].polygons) != [])
      && Census(wards) != oracleTotal
    ensures r.Err? && r.error != TotalMismatch ==>
      && r.error.ward < |wards| && (forall j :: 0 <= j < r.error.ward ==> GoodWard(wards[j]))
      && var ward := wards[r.error.ward];
         if r.error.PopulationMismatch? then ward.population != ward.oracle
         else ward.population == ward.oracle && FullScan(ward.polygons) == []
  {
    hide FullScan, Drawn, Written, CellsWritten;
    var features: seq<Feature> := [];
    places := [];
    NothingWritten(wards);
    for k := 0 to |wards|
      invariant forall j :: 0 <= j < k ==> GoodWard(wards[j])
      invariant Total(features) == Census(wards[..k])
      invariant forall w: nat :: WardTotal(features, w) == if w < k then wards[w].population else 0
      invariant Written(features, places, wards, k)
    {
      assert wards[..k + 1][..k] == wards[..k];
      var ward := wards[k];
      if ward.population != ward.oracle {
        return Err(PopulationMismatch(k)), places;
      }
      var cells := ScanWard(ward.polygons);
      if cells == [] {
        return Err(NoCells(k)), places;
      }
      ScannedWeightsPositive(ward.polygons);
      ghost var more: seq<Place>;
      var written: seq<Feature>;
      written, more := WriteWard(k, ward.population, cells);
      forall w: nat {
        TotalsSplit(features, written, w);
      }
      WardWritten(features, places, wards, k, written, more);
      features, places := features + written, places + more;
    }
    assert wards[..|wards|] == wards;
    if Total(features) != oracleTotal {
      return Err(TotalMismatch), places;
    }
    r := Ok(features);
  }
}
