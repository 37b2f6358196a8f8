/** The car grid page (`DataGridViewModel`): the grid's `Source`
    collection and the `OriginalCars` snapshot, both lists of references to
    mutable `Car` objects, and the save that diffs them into delete, update
    and add commands. Objects live in a heap indexed by reference so that
    aliasing between the two lists is visible. The service calls become
    commands; the decimal parser and the confirmation answer are inputs. */
module CarGrid {

  import opened Base
  import opened Text
  import opened Collections

  /** `Car`: decimal `Price` is modelled as a real. */
  datatype Car = Car(id: int, make: string, model: string, year: int, price: real)

  /** The view model: a heap of car objects, the references the grid shows
      (`Source`), and the references of the snapshot (`OriginalCars`). */
  datatype Grid = Grid(heap: seq<Car>, source: seq<nat>, originals: seq<nat>)

  predicate RefsIn(refs: seq<nat>, heap: seq<Car>) {
    forall k :: 0 <= k < |refs| ==> refs[k] < |heap|
  }

  /** Every reference points into the heap. */
  predicate Valid(g: Grid) {
    RefsIn(g.source, g.heap) && RefsIn(g.originals, g.heap)
  }

  /** The car values a list of references currently points to. */
  function Deref(heap: seq<Car>, refs: seq<nat>): (r: seq<Car>)
    requires RefsIn(refs, heap)
    ensures |r| == |refs| && forall k :: 0 <= k < |refs| ==> r[k] == heap[refs[k]]
  {
    seq(|refs|, k requires 0 <= k < |refs| => heap[refs[k]])
  }

  /** `OnNavigatedTo`: the loaded cars become the grid's objects, and the
      snapshot is a DEEP copy: new objects with the same values. */
  function NavigatedTo(data: seq<Car>): (g: Grid)
    ensures Valid(g)
    ensures Deref(g.heap, g.source) == data && Deref(g.heap, g.originals) == data
    ensures forall k, m :: 0 <= k < |g.source| && 0 <= m < |g.originals| ==> g.source[k] != g.originals[m]
  {
    var n := |data|;
    Grid(data + data, seq(n, k => k), seq(n, k => n + k))
  }

  /** The user edits the car in grid row `k`: the object itself changes,
      so every list holding its reference sees the change. */
  function EditRow(g: Grid, k: nat, car: Car): (r: Grid)
    requires Valid(g) && k < |g.source|
    ensures Valid(r) && r.source == g.source && r.originals == g.originals
    ensures |r.heap| == |g.heap| && r.heap[g.source[k]] == car
    ensures forall p :: 0 <= p < |g.heap| && p != g.source[k] ==> r.heap[p] == g.heap[p]
  {
    g.(heap := g.heap[g.source[k] := car])
  }

  /** The user adds a row to the grid: a new object at the end. */
  function AddRow(g: Grid, car: Car): (r: Grid)
    requires Valid(g)
    ensures Valid(r) && r.originals == g.originals && |r.heap| == |g.heap| + 1 && r.heap[..|g.heap|] == g.heap
    ensures Deref(r.heap, r.source) == Deref(g.heap, g.source) + [car]
  {
    var r := Grid(g.heap + [car], g.source + [|g.heap|], g.originals);
    assert Deref(r.heap, r.source) == Deref(g.heap, g.source) + [car];
    r
  }

  /** The user removes grid row `k`. */
  function RemoveRow(g: Grid, k: nat): (r: Grid)
    requires Valid(g) && k < |g.source|
    ensures Valid(r) && r.heap == g.heap && r.originals == g.originals
    ensures r.source == g.source[..k] + g.source[k + 1..]
  {
    g.(source := g.source[..k] + g.source[k + 1..])
  }

  /** Some car in `cars` has this id. */
  predicate HasId(cars: seq<Car>, id: int) {
    exists k :: 0 <= k < |cars| && cars[k].id == id
  }

  /** `AreCarPropertiesEqual` together with the id test: the whole value. */
  predicate SameCar(a: Car, b: Car) {
    a.id == b.id && a.make == b.make && a.model == b.model && a.year == b.year && a.price == b.price
  }

  /** The id-and-properties test is exactly equality of car values. */
  lemma SameCarIsEquality(a: Car, b: Car)
    ensures SameCar(a, b) <==> a == b
  {
  }

  /** A current car has an original with the same id and properties. */
  predicate Unchanged(c: Car, originals: seq<Car>) {
    exists k :: 0 <= k < |originals| && SameCar(originals[k], c)
  }

  /** The changed cars: current cars with no identical original, in grid
      order. */
  function ChangedCars(current: seq<Car>, originals: seq<Car>): (r: seq<Car>)
    ensures forall c :: c in r <==> c in current && c !in originals
  {
    var r := Where(current, (c: Car) => !Unchanged(c, originals));
    assert forall c :: Unchanged(c, originals) <==> c in originals by {
      forall c ensures Unchanged(c, originals) <==> c in originals {
        if c in originals {
          var k :| 0 <= k < |originals| && originals[k] == c;
          assert SameCar(originals[k], c);
        }
      }
    }
    r
  }

  /** The deleted cars: originals whose id no current car carries. */
  function DeletedCars(originals: seq<Car>, current: seq<Car>): (r: seq<Car>)
    ensures forall c :: c in r <==> c in originals && !HasId(current, c.id)
  {
    Where(originals, (o: Car) => !HasId(current, o.id))
  }

  /** `ValidateCars`' test for one car. */
  predicate ValidCar(c: Car) {
    !IsBlank(c.make) && !IsBlank(c.model) && c.year > 0 && c.price >= 0.0
  }

  /** `ValidateCars`: true exactly when every car passes, stopping at the
      first that does not. */
  method ValidateCars(cars: seq<Car>) returns (ok: bool)
    ensures ok <==> forall k :: 0 <= k < |cars| ==> ValidCar(cars[k])
  {
    var i := 0;
    while i < |cars|
      invariant 0 <= i <= |cars|
      invariant forall k :: 0 <= k < i ==> ValidCar(cars[k])
    {
      var c := cars[i];
      if IsBlank(c.make) || IsBlank(c.model) || c.year <= 0 || c.price < 0.0 {
        return false;
      }
      i := i + 1;
    }
    return true;
  }

  /** The service calls a save issues. */
  datatype Command = DeleteCar(id: int) | UpdateCar(car: Car) | AddCar(car: Car)

  /** An update when the car's id is among the originals, an add otherwise. */
  function Route(c: Car, originals: seq<Car>): (cmd: Command)
    ensures cmd.UpdateCar? <==> HasId(originals, c.id)
    ensures cmd.AddCar? <==> !HasId(originals, c.id)
    ensures cmd.UpdateCar? ==> cmd.car == c
    ensures cmd.AddCar? ==> cmd.car == c
  {
    if HasId(originals, c.id) then UpdateCar(c) else AddCar(c)
  }

  function Routes(changed: seq<Car>, originals: seq<Car>): (r: seq<Command>)
    ensures |r| == |changed| && forall k :: 0 <= k < |changed| ==> r[k] == Route(changed[k], originals)
  {
    seq(|changed|, k requires 0 <= k < |changed| => Route(changed[k], originals))
  }

  function Deletes(deleted: seq<Car>): (r: seq<Command>)
    ensures |r| == |deleted| && forall k :: 0 <= k < |deleted| ==> r[k] == DeleteCar(deleted[k].id)
  {
    seq(|deleted|, k requires 0 <= k < |deleted| => DeleteCar(deleted[k].id))
  }

  /** How a save ends. */
  datatype SaveResult =
    | ValidationFailed
    | DeletionDeclined
    | Saved(commands: seq<Command>)

  /** `OnSaveButtonClick`. A changed car that fails validation stops the
      save; deletions need the user's confirmation (`confirm`); otherwise
      the deletes, then one update or add per changed car, are issued, and
      the snapshot becomes a SHALLOW copy of the grid's references. */
  function Save(g: Grid, confirm: bool): (r: (Grid, SaveResult))
    requires Valid(g)
    ensures Valid(r.0)
    ensures var current := Deref(g.heap, g.source);
            var originals := Deref(g.heap, g.originals);
            var changed := ChangedCars(current, originals);
            var deleted := DeletedCars(originals, current);
            && (r.1 == ValidationFailed <==> !(forall k :: 0 <= k < |changed| ==> ValidCar(changed[k])))
            && (r.1 == DeletionDeclined <==> (forall k :: 0 <= k < |changed| ==> ValidCar(changed[k]))
                                             && deleted != [] && !confirm)
            && (r.1.Saved? ==> r.1.commands == Deletes(deleted) + Routes(changed, originals))
            && (r.1.Saved? ==> r.0 == g.(originals := g.source))
            && (!r.1.Saved? ==> r.0 == g)
  {
    var current := Deref(g.heap, g.source);
    var originals := Deref(g.heap, g.originals);
    var changed := ChangedCars(current, originals);
    if !(forall k :: 0 <= k < |changed| ==> ValidCar(changed[k])) then (g, ValidationFailed)
    else
      var deleted := DeletedCars(originals, current);
      if |deleted| > 0 && !confirm then (g, DeletionDeclined)
      else (g.(originals := g.source), Saved(Deletes(deleted) + Routes(changed, originals)))
  }

  /** A car identical to an original is never reported as changed, and
      every update or add the save issues is for a car that differs from
      every original. */
  lemma SavedCommandsAreChanges(g: Grid, confirm: bool, k: nat)
    requires Valid(g) && Save(g, confirm).1.Saved?
    requires k < |Save(g, confirm).1.commands| && !Save(g, confirm).1.commands[k].DeleteCar?
    ensures Save(g, confirm).1.commands[k].car in Deref(g.heap, g.source)
    ensures Save(g, confirm).1.commands[k].car !in Deref(g.heap, g.originals)
  {
    var current := Deref(g.heap, g.source);
    var originals := Deref(g.heap, g.originals);
    var changed := ChangedCars(current, originals);
    var deleted := DeletedCars(originals, current);
    var cmds := Save(g, confirm).1.commands;
    assert cmds == Deletes(deleted) + Routes(changed, originals);
    CommandCarries(deleted, changed, originals, k);
    assert changed[k - |deleted|] in changed;
  }

  /** In a save's command list, every command that is not a delete carries
      the changed car at its position after the deletes. */
  lemma CommandCarries(deleted: seq<Car>, changed: seq<Car>, originals: seq<Car>, k: nat)
    requires k < |deleted| + |changed|
    ensures var cmds := Deletes(deleted) + Routes(changed, originals);
            !cmds[k].DeleteCar? ==> k >= |deleted| && cmds[k].car == changed[k - |deleted|]
  {
    var cmds := Deletes(deleted) + Routes(changed, originals);
    if k >= |deleted| {
      assert cmds[k] == Routes(changed, originals)[k - |deleted|];
    }
  }

  /** An update goes to a car whose id the snapshot knows, an add to one
      it does not; no car is both updated and added. */
  lemma RoutingIsExclusive(changed: seq<Car>, originals: seq<Car>, k: nat)
    requires k < |changed|
    ensures Routes(changed, originals)[k].UpdateCar? != Routes(changed, originals)[k].AddCar?
    ensures Routes(changed, originals)[k].UpdateCar? <==> HasId(originals, changed[k].id)
  {
  }

  /** After a completed save the snapshot and the grid share their
      objects, so ANY later in-place edit goes unnoticed: the next save
      finds no changed and no deleted car. */
  lemma ShallowCopyHidesEdits(g: Grid, confirm: bool, k: nat, car: Car, confirm2: bool)
    requires Valid(g) && Save(g, confirm).1.Saved?
    requires k < |Save(g, confirm).0.source|
    ensures var edited := EditRow(Save(g, confirm).0, k, car);
            Save(edited, confirm2).1 == Saved([])
  {
    var g1 := Save(g, confirm).0;
    var edited := EditRow(g1, k, car);
    var cars := Deref(edited.heap, edited.source);
    assert Deref(edited.heap, edited.originals) == cars;
    NothingAgainstItself(cars);
  }

  /** A list compared with itself has no changed and no deleted car. */
  lemma NothingAgainstItself(cars: seq<Car>)
    ensures ChangedCars(cars, cars) == [] && DeletedCars(cars, cars) == []
  {
    assert forall i :: 0 <= i < |cars| ==> Unchanged(cars[i], cars) by {
      forall i | 0 <= i < |cars| ensures Unchanged(cars[i], cars) {
        assert SameCar(cars[i], cars[i]);
      }
    }
    WhereNoneIff(cars, (c: Car) => !Unchanged(c, cars));
    assert forall i :: 0 <= i < |cars| ==> HasId(cars, cars[i].id);
    WhereNoneIff(cars, (o: Car) => !HasId(cars, o.id));
  }

  /** Right after loading, the snapshot is a deep copy, so an edit that
      produces a car value not in the snapshot IS reported. */
  lemma DeepCopyShowsEdits(data: seq<Car>, k: nat, car: Car)
    requires k < |data| && car !in data
    ensures var g := EditRow(NavigatedTo(data), k, car);
            car in ChangedCars(Deref(g.heap, g.source), Deref(g.heap, g.originals))
  {
    var g0 := NavigatedTo(data);
    var g := EditRow(g0, k, car);
    var n := |data|;
    assert g0.source[k] == k;
    assert Deref(g.heap, g.originals) == data by {
      forall m | 0 <= m < n ensures g.heap[g.originals[m]] == data[m] {
        assert g.originals[m] == n + m;
      }
    }
    assert Deref(g.heap, g.source)[k] == car;
  }

  /** A filter criterion a car must meet; an absent criterion imposes
      nothing. */
  predicate MatchesFilter(c: Car, make: string, model: string, year: Option<int>, price: Option<real>) {
    && (make == [] || ContainsIgnoreCase(c.make, make))
    && (model == [] || ContainsIgnoreCase(c.model, model))
    && (year.None? || c.year == year.value)
    && (price.None? || c.price == price.value)
  }

  /** `OnFilterButtonClick`: the grid shows the snapshot's cars that meet
      every active criterion, in snapshot order. Empty make or model text,
      or year or price text that does not parse, is no criterion. The grid
      now holds the snapshot's OWN references. */
  function Filter(g: Grid, make: string, model: string, yearText: string, priceText: string,
                  parseDecimal: string -> Option<real>): (r: Grid)
    requires Valid(g)
    ensures Valid(r) && r.heap == g.heap && r.originals == g.originals
    ensures forall k :: 0 <= k < |r.source| ==>
              r.source[k] in g.originals
              && MatchesFilter(g.heap[r.source[k]], make, model, ParseInt32(yearText), parseDecimal(priceText))
    ensures forall k :: 0 <= k < |g.originals| && MatchesFilter(g.heap[g.originals[k]], make, model, ParseInt32(yearText), parseDecimal(priceText)) ==>
              g.originals[k] in r.source
    ensures Subsequence(r.source, g.originals)
  {
    var year := ParseInt32(yearText);
    var price := parseDecimal(priceText);
    var keep := (p: nat) => p < |g.heap| && MatchesFilter(g.heap[p], make, model, year, price);
    WhereSubsequence(g.originals, keep);
    g.(source := Where(g.originals, keep))
  }

  /** The filtered grid shows the snapshot's own objects, so an edit made
      after filtering changes the snapshot too and is never reported as a
      change. */
  lemma FilterAliasesSnapshot(g: Grid, make: string, model: string, yearText: string, priceText: string,
                              parseDecimal: string -> Option<real>, k: nat, car: Car)
    requires Valid(g) && k < |Filter(g, make, model, yearText, priceText, parseDecimal).source|
    ensures var e := EditRow(Filter(g, make, model, yearText, priceText, parseDecimal), k, car);
            car !in ChangedCars(Deref(e.heap, e.source), Deref(e.heap, e.originals))
  {
    var f := Filter(g, make, model, yearText, priceText, parseDecimal);
    var e := EditRow(f, k, car);
    var m :| 0 <= m < |f.originals| && f.originals[m] == f.source[k];
    assert Deref(e.heap, e.originals)[m] == car;
  }

  /** Car ids in the snapshot are distinct. */
  predicate DistinctIds(cars: seq<Car>) {
    forall k, m :: 0 <= k < m < |cars| ==> cars[k].id != cars[m].id
  }

  /** Filtering and then saving deletes every car the filter hid: with
      distinct ids, the deleted cars are exactly the snapshot's cars that
      fail the filter. */
  lemma FilterThenSaveDeletesHidden(g: Grid, make: string, model: string, yearText: string, priceText: string,
                                    parseDecimal: string -> Option<real>)
    requires Valid(g) && DistinctIds(Deref(g.heap, g.originals))
    ensures var f := Filter(g, make, model, yearText, priceText, parseDecimal);
            var originals := Deref(f.heap, f.originals);
            forall c :: c in DeletedCars(originals, Deref(f.heap, f.source)) <==>
              c in originals && !MatchesFilter(c, make, model, ParseInt32(yearText), parseDecimal(priceText))
  {
    var year := ParseInt32(yearText);
    var price := parseDecimal(priceText);
    var f := Filter(g, make, model, yearText, priceText, parseDecimal);
    var originals := Deref(f.heap, f.originals);
    var current := Deref(f.heap, f.source);
    forall c | c in originals
      ensures HasId(current, c.id) <==> MatchesFilter(c, make, model, year, price)
    {
      var k :| 0 <= k < |originals| && originals[k] == c;
      if MatchesFilter(c, make, model, year, price) {
        assert f.originals[k] in f.source;
        var m :| 0 <= m < |f.source| && f.source[m] == f.originals[k];
        assert current[m] == c;
      }
      if HasId(current, c.id) {
        var m :| 0 <= m < |current| && current[m].id == c.id;
        assert f.source[m] in g.originals;
        var j :| 0 <= j < |g.originals| && g.originals[j] == f.source[m];
        assert originals[j] == current[m];
        assert j == k;
      }
    }
  }
}
