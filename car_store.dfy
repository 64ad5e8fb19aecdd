/** CarService (services/CarService.cpp): the car records kept in a CSV file. Each
    operation reloads the whole file, works on the list and, when it changes
    something, writes the whole file back. The file's path is fixed; what it holds
    is the `file` field. */
module CarStore {
  import opened Text
  import opened Cars
  import opened Storage
  import Records

  const Header := "ID,Make,Model,Year," + "Color,LicensePlate," + "DailyRate,Status,Mileage," + "FuelType,Transmission,Seats"

  function IdOf(c: Car): int { c.carId }
  predicate HasId(c: Car, id: int) { c.carId == id }
  predicate HasStatus(c: Car, s: CarStatus) { c.status == s }

  // ---------------------------------------------------------------------------
  // Line codec

  /** The twelve fields carToCsvLine writes, in header order. */
  function CarFields(c: Car, dc: DoubleCodec): (fs: seq<string>)
    ensures |fs| == 12 && fs[11] != ""
  {
    [IntToString(c.carId), c.make, c.model, IntToString(c.year), c.color, c.licensePlate,
     dc.format(c.dailyRate), StatusToString(c.status), IntToString(c.mileage),
     FuelTypeToString(c.fuelType), TransmissionToString(c.transmission), IntToString(c.seats)]
  }

  /** carToCsvLine: the fields joined by commas. */
  function CarToCsvLine(c: Car, dc: DoubleCodec): (line: string)
    ensures line != "" && ',' in line
  {
    JoinContainsDelimiter(CarFields(c, dc), ',');
    Join(CarFields(c, dc), ',')
  }

  /** The body of parseCarFromLine after splitting: twelve or more fields, every
      number readable, or else the default car (id 0) -- whichever conversion throws. */
  function CarFromFields(fs: seq<string>, dc: DoubleCodec): (c: Car)
    ensures |fs| < 12 ==> c == DefaultCar()
    ensures |fs| >= 12 &&
            (ParseInt(fs[0]).None? || ParseInt(fs[3]).None? || dc.parse(fs[6]).None? || ParseInt(fs[8]).None? || ParseInt(fs[11]).None?)
            ==> c == DefaultCar()
    ensures |fs| >= 12 && ParseInt(fs[0]).Some? && ParseInt(fs[3]).Some? && dc.parse(fs[6]).Some?
            && ParseInt(fs[8]).Some? && ParseInt(fs[11]).Some? ==>
              && c.carId == ParseInt(fs[0]).value && c.year == ParseInt(fs[3]).value
              && c.dailyRate == dc.parse(fs[6]).value && c.mileage == ParseInt(fs[8]).value
              && c.seats == ParseInt(fs[11]).value
              && c.make == fs[1] && c.model == fs[2] && c.color == fs[4] && c.licensePlate == fs[5]
              && c.status == StringToStatus(fs[7]) && c.fuelType == StringToFuelType(fs[9])
              && c.transmission == StringToTransmission(fs[10])
    ensures c.carId > 0 ==> |fs| >= 12 && ParseInt(fs[0]) == Some(c.carId)
    ensures c.carId > 0 ==> c.make == fs[1] && c.model == fs[2] && c.color == fs[4] && c.licensePlate == fs[5]
  {
    if |fs| < 12 then DefaultCar()
    else
      match (ParseInt(fs[0]), ParseInt(fs[3]), dc.parse(fs[6]), ParseInt(fs[8]), ParseInt(fs[11]))
      case (Some(id), Some(year), Some(rate), Some(mileage), Some(seats)) =>
        Car(id, fs[1], fs[2], year, fs[4], fs[5], rate, StringToStatus(fs[7]), mileage,
            StringToFuelType(fs[9]), StringToTransmission(fs[10]), seats)
      case _ => DefaultCar()
  }

  /** parseCarFromLine as a function of the line. */
  function DecodeCar(line: string, dc: DoubleCodec): Car
  {
    CarFromFields(Split(line, ','), dc)
  }

  /** A car whose text fields hold no comma or newline and whose rate can be written
      and read back. */
  predicate Storable(c: Car, dc: DoubleCodec)
  {
    Clean(c.make) && Clean(c.model) && Clean(c.color) && Clean(c.licensePlate) && dc.Storable(c.dailyRate)
  }

  /** What a stored car reads back as: the same car, with the rate it was printed as. */
  function Reread(c: Car, dc: DoubleCodec): Car
  {
    c.(dailyRate := dc.Reread(c.dailyRate))
  }

  /** No field of a storable car holds a comma or a line break. */
  lemma CarFieldsClean(c: Car, dc: DoubleCodec)
    requires Storable(c, dc)
    ensures FreeOf(CarFields(c, dc), ',') && FreeOf(CarFields(c, dc), '\n')
  {
    EnumNamesStorable(c.status, c.fuelType, c.transmission);
    var fs := CarFields(c, dc);
    forall k | 0 <= k < 12 ensures Clean(fs[k]) {
      if k == 0 {} else if k == 1 {} else if k == 2 {} else if k == 3 {} else if k == 4 {} else if k == 5 {}
      else if k == 6 {} else if k == 7 {} else if k == 8 {} else if k == 9 {} else if k == 10 {} else {}
    }
  }

  /** A written line contains no line break, so it stays one line of the file. */
  lemma CarLineIsOneLine(c: Car, dc: DoubleCodec)
    requires Storable(c, dc)
    ensures '\n' !in CarToCsvLine(c, dc)
  {
    CarFieldsClean(c, dc);
    JoinFreeOf(CarFields(c, dc), ',', '\n');
  }

  /** parseCarFromLine(carToCsvLine(c)) is c, except the rate, which is what its
      printed form reads back as. */
  lemma CarLineRoundTrip(c: Car, dc: DoubleCodec)
    requires Storable(c, dc)
    ensures DecodeCar(CarToCsvLine(c, dc), dc) == Reread(c, dc)
  {
    var fs := CarFields(c, dc);
    CarFieldsClean(c, dc);
    SplitJoin(fs, ',');
    assert Split(CarToCsvLine(c, dc), ',') == fs;
    ParseIntToString(c.carId);
    ParseIntToString(c.year);
    ParseIntToString(c.mileage);
    ParseIntToString(c.seats);
    StatusRoundTrip(c.status);
    FuelTypeRoundTrip(c.fuelType);
    TransmissionRoundTrip(c.transmission);
  }

  /** A line with fewer than twelve fields is read as the default car, and so is
      dropped by a load. */
  lemma ShortLineGivesDefault(dc: DoubleCodec)
    ensures DecodeCar("1,Ford", dc) == DefaultCar()
    ensures DecodeCar("", dc) == DefaultCar()
  {
    SplitFromLast([], "Ford", ',');
    SplitFromToken([], "1", "Ford", ',');
    assert "1,Ford" == "1" + [','] + "Ford";
  }

  // ---------------------------------------------------------------------------
  // The store, as functions of the file

  /** loadCars: nothing for a missing file; otherwise every line after the header
      that is not blank and decodes to a positive id, in file order. */
  function LoadedCars(f: FileState, dc: DoubleCodec): (cars: seq<Car>)
    ensures forall k | 0 <= k < |cars| :: cars[k].carId > 0
  {
    KeepDecoded(DataLines(f), DecodeCar, dc, IdOf)
  }

  /** nextId after a load: one more than the largest loaded id (1 when there is none),
      unchanged when the file is missing, because loadCars returns before
      updateNextId then. */
  function NextIdAfterLoad(f: FileState, nextId: int, dc: DoubleCodec): (n: int)
    ensures f.Present? ==> n >= 1 && forall k | 0 <= k < |LoadedCars(f, dc)| :: LoadedCars(f, dc)[k].carId < n
    ensures f.Present? ==> n == 1 || exists k | 0 <= k < |LoadedCars(f, dc)| :: LoadedCars(f, dc)[k].carId == n - 1
    ensures f.Absent? ==> n == nextId
  {
    if f.Present? then Records.MaxKey(LoadedCars(f, dc), IdOf) + 1 else nextId
  }

  /** The header line saveCars writes; loading skips whatever the first line holds. */
  lemma HeaderIsOneLine()
    ensures '\n' !in Header
  {
    assert '\n' !in "ID,Make,Model,Year," && '\n' !in "Color,LicensePlate,";
    assert '\n' !in "DailyRate,Status,Mileage," && '\n' !in "FuelType,Transmission,Seats";
  }

  /** saveCars: the header and one line per car. */
  function RenderCars(header: string, cars: seq<Car>, dc: DoubleCodec): string
  {
    Render(header, Records.Map(cars, CarToCsvLine, dc))
  }

  /** Loading what was saved gives the saved cars back (rates as reread). */
  lemma LoadRendered(header: string, cars: seq<Car>, dc: DoubleCodec)
    requires '\n' !in header
    requires forall k | 0 <= k < |cars| :: cars[k].carId > 0 && Storable(cars[k], dc)
    ensures LoadedCars(Present(RenderCars(header, cars, dc)), dc) == Records.Map(cars, Reread, dc)
  {
    var lines := Records.Map(cars, CarToCsvLine, dc);
    forall k | 0 <= k < |cars|
      ensures '\n' !in lines[k] && DecodeCar(CarToCsvLine(cars[k], dc), dc) == Reread(cars[k], dc)
    {
      CarLineIsOneLine(cars[k], dc);
      CarLineRoundTrip(cars[k], dc);
    }
    ReadRendered(header, lines);
    KeepDecodedOfEncoded(cars, Records.Map(cars, Reread, dc), CarToCsvLine, DecodeCar, dc, IdOf);
  }

  /** What one successful addCar does to (file, nextId): load, give the car the next
      id, append it, save. */
  function AddStep(header: string, f: FileState, nextId: int, car: Car, dc: DoubleCodec): (r: (FileState, int))
    ensures r.0.Present? && r.1 == NextIdAfterLoad(f, nextId, dc) + 1
  {
    var id := NextIdAfterLoad(f, nextId, dc);
    (Present(RenderCars(header, LoadedCars(f, dc) + [car.(carId := id)], dc)), id + 1)
  }

  /** The first loaded car with the id, or the default car (id 0) when there is none. */
  function CarWithId(cars: seq<Car>, id: int): (c: Car)
    ensures (forall k | 0 <= k < |cars| :: cars[k].carId != id) ==> c == DefaultCar()
    ensures (exists k | 0 <= k < |cars| :: cars[k].carId == id) ==>
              exists k | 0 <= k < |cars| :: c == cars[k] && c.carId == id && forall j | 0 <= j < k :: cars[j].carId != id
  {
    var r := Records.FirstIndex(cars, HasId, id);
    if r < 0 then DefaultCar() else cars[r]
  }

  /** searchCars' test: the lower-cased term occurs in the lower-cased make, model,
      colour or plate. */
  predicate MatchesSearch(c: Car, lowerTerm: string)
  {
    || Contains(ToLower(c.make), lowerTerm) || Contains(ToLower(c.model), lowerTerm)
    || Contains(ToLower(c.color), lowerTerm) || Contains(ToLower(c.licensePlate), lowerTerm)
  }

  /** The search results are the matching cars, in load order, and an empty term
      matches every car. */
  lemma SearchIsOrderedFilter(cars: seq<Car>, term: string)
    ensures Records.IsSubsequence(Records.Filter(cars, MatchesSearch, ToLower(term)), cars)
    ensures forall c :: c in Records.Filter(cars, MatchesSearch, ToLower(term)) <==>
                        c in cars && MatchesSearch(c, ToLower(term))
    ensures term == "" ==> Records.Filter(cars, MatchesSearch, ToLower(term)) == cars
  {
    Records.SelectSpec(cars, MatchesSearch, ToLower(term), true);
    if term == "" {
      forall k | 0 <= k < |cars| ensures MatchesSearch(cars[k], ToLower(term)) {
        ContainsEmpty(ToLower(cars[k].make));
      }
      Records.SelectAll(cars, MatchesSearch, ToLower(term), true);
    }
  }

  /** getAvailableCars keeps exactly the available cars, in order. */
  lemma AvailableIsOrderedFilter(cars: seq<Car>)
    ensures Records.IsSubsequence(Records.Filter(cars, HasStatus, Available), cars)
    ensures forall c :: c in Records.Filter(cars, HasStatus, Available) <==> c in cars && IsAvailable(c)
  {
    Records.SelectSpec(cars, HasStatus, Available, true);
  }

  /** A car has one status, so the available, rented and maintenance counts add up
      to at most the total. */
  lemma {:induction false} StatusCountsBounded(cars: seq<Car>)
    ensures |Records.Filter(cars, HasStatus, Available)| + |Records.Filter(cars, HasStatus, Rented)|
            + |Records.Filter(cars, HasStatus, Maintenance)| <= |cars|
    decreases |cars|
  {
    if cars != [] {
      StatusCountsBounded(cars[..|cars| - 1]);
    }
  }

  /** deleteCar's list: no car with the id is left, every other car is, in order, and
      the list is unchanged exactly when no car had the id. */
  lemma DeleteRemovesEveryMatch(cars: seq<Car>, id: int)
    ensures Records.IsSubsequence(Records.Reject(cars, HasId, id), cars)
    ensures forall c :: c in Records.Reject(cars, HasId, id) <==> c in cars && c.carId != id
    ensures |Records.Reject(cars, HasId, id)| == |cars| <==> forall k | 0 <= k < |cars| :: cars[k].carId != id
  {
    var kept := Records.Reject(cars, HasId, id);
    Records.SelectSpec(cars, HasId, id, false);
    forall c ensures c in kept <==> c in cars && c.carId != id {
      assert HasId(c, id) == (c.carId == id);
    }
    Records.SelectAll(cars, HasId, id, false);
    assert (forall k | 0 <= k < |cars| :: HasId(cars[k], id) == false) <==>
           (forall k | 0 <= k < |cars| :: cars[k].carId != id);
  }

  /** nextId is one past the largest id whatever the order: ids 3, 7, 2 give 8. */
  lemma NextIdExample(a: Car, b: Car, c: Car)
    requires a.carId == 3 && b.carId == 7 && c.carId == 2
    ensures Records.MaxKey([a, b, c], IdOf) + 1 == 8
  {
    assert [a, b, c][..2] == [a, b] && [a, b][..1] == [a] && [a][..0] == [];
  }

  // ---------------------------------------------------------------------------
  // Consecutive additions

  /** One successful add, seen through the next load: the cars loaded before, then
      the new car with the next id, every rate as reread. */
  lemma AddStepLoads(header: string, f: FileState, n: int, c: Car, dc: DoubleCodec)
    requires '\n' !in header && n >= 1
    requires forall k | 0 <= k < |LoadedCars(f, dc)| :: Storable(LoadedCars(f, dc)[k], dc)
    requires Storable(c, dc)
    ensures LoadedCars(AddStep(header, f, n, c, dc).0, dc)
            == Records.Map(LoadedCars(f, dc) + [c.(carId := NextIdAfterLoad(f, n, dc))], Reread, dc)
  {
    var loaded := LoadedCars(f, dc);
    var next := loaded + [c.(carId := NextIdAfterLoad(f, n, dc))];
    forall k | 0 <= k < |next| ensures next[k].carId > 0 && Storable(next[k], dc) {
      if k < |loaded| {
        assert next[k] == loaded[k];
      }
    }
    LoadRendered(header, next, dc);
  }

  /** The loaded cars are cs in order, with the ids 1..|cs|, each as added but for
      the rate, and each still storable. */
  ghost predicate AddedInOrder(loaded: seq<Car>, cs: seq<Car>, dc: DoubleCodec)
  {
    && |loaded| == |cs|
    && forall k | 0 <= k < |cs| ::
         loaded[k] == cs[k].(carId := k + 1, dailyRate := loaded[k].dailyRate) && Storable(loaded[k], dc)
  }

  /** Cars numbered 1..N have N as their largest id. */
  lemma LargestAddedId(loaded: seq<Car>, cs: seq<Car>, dc: DoubleCodec)
    requires AddedInOrder(loaded, cs, dc) && cs != []
    ensures Records.MaxKey(loaded, IdOf) == |cs|
  {
    assert IdOf(loaded[|cs| - 1]) == |cs|;
    forall k | 0 <= k < |loaded| ensures IdOf(loaded[k]) <= |cs| {
      assert loaded[k].carId == k + 1;
    }
  }

  /** Appending car c with the next id, and rereading every rate, keeps the picture. */
  lemma AddOneMore(loaded: seq<Car>, cs: seq<Car>, c: Car, dc: DoubleCodec)
    requires dc.RereadStable()
    requires AddedInOrder(loaded, cs, dc) && Storable(c, dc)
    ensures AddedInOrder(Records.Map(loaded + [c.(carId := |cs| + 1)], Reread, dc), cs + [c], dc)
  {
    var next := loaded + [c.(carId := |cs| + 1)];
    var reloaded := Records.Map(next, Reread, dc);
    var all := cs + [c];
    forall k | 0 <= k < |all|
      ensures reloaded[k] == all[k].(carId := k + 1, dailyRate := reloaded[k].dailyRate)
      ensures Storable(reloaded[k], dc)
    {
      assert reloaded[k] == Reread(next[k], dc);
      if k < |cs| {
        assert all[k] == cs[k] && next[k] == loaded[k];
      } else {
        assert all[k] == c && next[k] == c.(carId := |cs| + 1);
      }
      assert dc.Storable(next[k].dailyRate);
    }
  }

  /** The store after adding cs from scratch: nextId is |cs| + 1, a data file exists
      once a car was added, and the loaded cars are as AddedInOrder says. */
  ghost predicate HoldsAdded(f: FileState, n: int, cs: seq<Car>, dc: DoubleCodec)
  {
    n == |cs| + 1 && (f == Absent <==> cs == []) && AddedInOrder(LoadedCars(f, dc), cs, dc)
  }

  /** One more successful add, on the store: nextId moves on by one and the
      loaded cars gain c, with the next id, at the end. */
  lemma AddKeepsOrder(header: string, f: FileState, n: int, cs: seq<Car>, c: Car, dc: DoubleCodec)
    requires '\n' !in header && dc.RereadStable() && Storable(c, dc)
    requires HoldsAdded(f, n, cs, dc)
    ensures HoldsAdded(AddStep(header, f, n, c, dc).0, AddStep(header, f, n, c, dc).1, cs + [c], dc)
  {
    var loaded := LoadedCars(f, dc);
    assert NextIdAfterLoad(f, n, dc) == |cs| + 1 by {
      if cs != [] {
        LargestAddedId(loaded, cs, dc);
      }
    }
    AddStepLoads(header, f, n, c, dc);
    AddOneMore(loaded, cs, c, dc);
  }

  /** states is a run of successful adds of cs, one after the other: each state is
      what adding the next car makes of the one before. */
  ghost predicate AddRun(header: string, states: seq<(FileState, int)>, cs: seq<Car>, dc: DoubleCodec)
  {
    && |states| == |cs| + 1
    && (cs != [] ==>
          var m := |cs| - 1;
          && AddRun(header, states[..m + 1], cs[..m], dc)
          && states[m + 1] == AddStep(header, states[m].0, states[m].1, cs[m], dc))
  }

  /** Starting from a store without a data file and nextId 1 (what the constructor
      leaves), adding N cars gives them the ids 1..N in order, keeps all their other
      fields but the rate, and leaves nextId at N + 1. */
  lemma {:induction false} SequentialIds(header: string, states: seq<(FileState, int)>, cs: seq<Car>, dc: DoubleCodec)
    requires '\n' !in header && dc.RereadStable()
    requires forall k | 0 <= k < |cs| :: Storable(cs[k], dc)
    requires AddRun(header, states, cs, dc) && states[0] == (Absent, 1)
    ensures HoldsAdded(states[|cs|].0, states[|cs|].1, cs, dc)
    decreases |cs|
  {
    if cs != [] {
      var m := |cs| - 1;
      var before := states[..m + 1];
      Records.SplitLast(cs);
      SequentialIds(header, before, cs[..m], dc);
      AddKeepsOrder(header, states[m].0, states[m].1, cs[..m], cs[m], dc);
      assert states[|cs|] == AddStep(header, states[m].0, states[m].1, cs[m], dc);
    }
  }

  // ---------------------------------------------------------------------------
  // The service

  class CarService {
    /** The data file's contents. */
    var file: FileState
    var nextId: int
    /** Whether the data file can be opened for writing. */
    const writable: bool
    /** The header line saves write. */
    const header: string
    /** How `double` rates are printed and read. */
    const doubles: DoubleCodec

    /** CarService(): nextId 1, then a load to pick up the ids already used. */
    constructor (contents: FileState, writable: bool, doubles: DoubleCodec)
      ensures file == contents && this.writable == writable && this.doubles == doubles && header == Header
      ensures nextId == NextIdAfterLoad(contents, 1, doubles)
    {
      file := contents;
      this.writable := writable;
      this.doubles := doubles;
      header := Header;
      nextId := 1;
      new;
      var _ := LoadCars();
    }

    /** parseCarFromLine: split on commas, then convert the fields. */
    method ParseCarFromLine(line: string) returns (c: Car)
      ensures c == DecodeCar(line, doubles)
    {
      var fields := SplitOn(line, ',');
      c := CarFromFields(fields, doubles);
    }

    /** updateNextId: one more than the largest id in cars (1 for none). */
    method UpdateNextId(cars: seq<Car>)
      modifies this
      ensures nextId == Records.MaxKey(cars, IdOf) + 1
      ensures file == old(file)
    {
      var maxId := 0;
      for i := 0 to |cars|
        invariant unchanged(this)
        invariant maxId == Records.MaxKey(cars[..i], IdOf)
      {
        Records.PrefixSnoc(cars, i);
        if cars[i].carId > maxId {
          maxId := cars[i].carId;
        }
      }
      assert cars[..|cars|] == cars;
      nextId := maxId + 1;
    }

    /** loadCars: read the file line by line, skip the first line and blank lines,
      keep the cars with a positive id; then recompute nextId. */
    method LoadCars() returns (cars: seq<Car>)
      modifies this
      ensures cars == LoadedCars(file, doubles)
      ensures file == old(file)
      ensures nextId == NextIdAfterLoad(old(file), old(nextId), doubles)
    {
      cars := [];
      if file.Absent? {
        return;
      }
      var lines := SplitOn(file.text, '\n');
      var firstLine := true;
      for i := 0 to |lines|
        invariant unchanged(this)
        invariant firstLine == (i == 0)
        invariant i > 0 ==> cars == KeepDecoded(lines[1..i], DecodeCar, doubles, IdOf)
        invariant i == 0 ==> cars == []
      {
        if firstLine {
          firstLine := false;
          assert lines[1..1] == [];
        } else {
          Records.SliceSnoc(lines, 1, i);
          KeepDecodedSnoc(lines[1..i], lines[i], DecodeCar, doubles, IdOf);
          var line := lines[i];
          if line != "" {
            var car := ParseCarFromLine(line);
            if car.carId > 0 {
              cars := cars + [car];
            }
          }
        }
      }
      assert cars == KeepDecoded(DataLines(file), DecodeCar, doubles, IdOf) by {
        if lines != [] {
          assert lines[1..|lines|] == DataLines(file);
        }
      }
      UpdateNextId(cars);
    }

    /** saveCars: false when the file cannot be opened; otherwise it is rewritten. */
    method SaveCars(cars: seq<Car>) returns (ok: bool)
      modifies this
      ensures ok == writable
      ensures file == (if writable then Present(RenderCars(header, cars, doubles)) else old(file))
      ensures nextId == old(nextId)
    {
      if !writable {
        return false;
      }
      var text := header + "\n";
      ghost var lines: seq<string> := [];
      RenderHeaderOnly(header);
      for i := 0 to |cars|
        invariant unchanged(this)
        invariant lines == Records.Map(cars[..i], CarToCsvLine, doubles)
        invariant text == Render(header, lines)
      {
        var line := CarToCsvLine(cars[i], doubles);
        Records.MapPrefixSnoc(cars, CarToCsvLine, doubles, i);
        RenderSnoc(header, lines, line);
        lines := lines + [line];
        text := text + line + "\n";
      }
      assert cars[..|cars|] == cars;
      file := Present(text);
      return true;
    }

    /** addCar: the car, with the next id, goes at the end; nextId moves on even
      when the save fails. */
    method AddCar(car: Car) returns (ok: bool)
      modifies this
      ensures ok == writable
      ensures nextId == AddStep(header, old(file), old(nextId), car, doubles).1
      ensures file == (if writable then AddStep(header, old(file), old(nextId), car, doubles).0 else old(file))
    {
      var cars := LoadCars();
      var newCar := car.(carId := nextId);
      cars := cars + [newCar];
      nextId := nextId + 1;
      ok := SaveCars(cars);
    }

    /** getAllCars. */
    method GetAllCars() returns (cars: seq<Car>)
      modifies this
      ensures cars == LoadedCars(old(file), doubles) && file == old(file)
      ensures nextId == NextIdAfterLoad(old(file), old(nextId), doubles)
    {
      cars := LoadCars();
    }

    /** getCarById: the first car with the id, or the default car. */
    method GetCarById(carId: int) returns (c: Car)
      modifies this
      ensures c == CarWithId(LoadedCars(old(file), doubles), carId)
      ensures file == old(file) && nextId == NextIdAfterLoad(old(file), old(nextId), doubles)
    {
      var cars := LoadCars();
      var i := Records.FindFirst(cars, HasId, carId);
      if i >= 0 {
        return cars[i];
      }
      return DefaultCar();
    }

    /** searchCars: the cars whose make, model, colour or plate contains the term,
      ignoring case, in load order. */
    method SearchCars(searchTerm: string) returns (results: seq<Car>)
      modifies this
      ensures results == Records.Filter(LoadedCars(old(file), doubles), MatchesSearch, ToLower(searchTerm))
      ensures file == old(file) && nextId == NextIdAfterLoad(old(file), old(nextId), doubles)
    {
      var cars := LoadCars();
      label loaded:
      var lowerSearchTerm := ToLower(searchTerm);
      results := [];
      for i := 0 to |cars|
        invariant unchanged@loaded(this)
        invariant results == Records.Filter(cars[..i], MatchesSearch, lowerSearchTerm)
      {
        Records.PrefixSnoc(cars, i);
        if MatchesSearch(cars[i], lowerSearchTerm) {
          results := results + [cars[i]];
        }
      }
      assert cars[..|cars|] == cars;
    }

    /** getAvailableCars: the available cars, in load order. */
    method GetAvailableCars() returns (availableCars: seq<Car>)
      modifies this
      ensures availableCars == Records.Filter(LoadedCars(old(file), doubles), HasStatus, Available)
      ensures file == old(file) && nextId == NextIdAfterLoad(old(file), old(nextId), doubles)
    {
      var cars := LoadCars();
      label loaded:
      availableCars := [];
      for i := 0 to |cars|
        invariant unchanged@loaded(this)
        invariant availableCars == Records.Filter(cars[..i], HasStatus, Available)
      {
        Records.PrefixSnoc(cars, i);
        if IsAvailable(cars[i]) {
          availableCars := availableCars + [cars[i]];
        }
      }
      assert cars[..|cars|] == cars;
    }

    /** updateCar: replace the first car with the same id and save; false, and no
      write, when there is none. */
    method UpdateCar(car: Car) returns (ok: bool)
      modifies this
      ensures var loaded := LoadedCars(old(file), doubles);
              var found := Records.FirstIndex(loaded, HasId, car.carId) >= 0;
              && ok == (found && writable)
              && file == (if found && writable then Present(RenderCars(header, Records.ReplaceFirst(loaded, HasId, car.carId, car), doubles)) else old(file))
      ensures nextId == NextIdAfterLoad(old(file), old(nextId), doubles)
    {
      var cars := LoadCars();
      var i := Records.FindFirst(cars, HasId, car.carId);
      if i >= 0 {
        ok := SaveCars(cars[i := car]);
      } else {
        ok := false;
      }
    }

    /** deleteCar: remove_if every car with the id, erase the tail and save; false,
      and no write, when none had it. */
    method DeleteCar(carId: int) returns (ok: bool)
      modifies this
      ensures var loaded := LoadedCars(old(file), doubles);
              var kept := Records.Reject(loaded, HasId, carId);
              && ok == (|kept| < |loaded| && writable)
              && file == (if |kept| < |loaded| && writable then Present(RenderCars(header, kept, doubles)) else old(file))
      ensures nextId == NextIdAfterLoad(old(file), old(nextId), doubles)
    {
      var cars := LoadCars();
      var arr := new Car[|cars|](k requires 0 <= k < |cars| => cars[k]);
      assert arr[..] == cars;
      var end := Records.RemoveIf(arr, HasId, carId);
      if end != arr.Length {
        ok := SaveCars(arr[..end]);
      } else {
        ok := false;
      }
    }

    /** getTotalCars. */
    method GetTotalCars() returns (n: int)
      modifies this
      ensures n == |LoadedCars(old(file), doubles)|
      ensures file == old(file) && nextId == NextIdAfterLoad(old(file), old(nextId), doubles)
    {
      var cars := LoadCars();
      n := |cars|;
    }

    /** getAvailableCarsCount. */
    method GetAvailableCarsCount() returns (n: int)
      modifies this
      ensures n == |Records.Filter(LoadedCars(old(file), doubles), HasStatus, Available)|
      ensures file == old(file) && nextId == NextIdAfterLoad(old(file), old(nextId), doubles)
    {
      var cars := GetAvailableCars();
      n := |cars|;
    }

    /** getRentedCarsCount. */
    method GetRentedCarsCount() returns (n: int)
      modifies this
      ensures n == |Records.Filter(LoadedCars(old(file), doubles), HasStatus, Rented)|
      ensures file == old(file) && nextId == NextIdAfterLoad(old(file), old(nextId), doubles)
    {
      var cars := LoadCars();
      n := Records.CountIf(cars, HasStatus, Rented);
    }

    /** getMaintenanceCarsCount. */
    method GetMaintenanceCarsCount() returns (n: int)
      modifies this
      ensures n == |Records.Filter(LoadedCars(old(file), doubles), HasStatus, Maintenance)|
      ensures file == old(file) && nextId == NextIdAfterLoad(old(file), old(nextId), doubles)
    {
      var cars := LoadCars();
      n := Records.CountIf(cars, HasStatus, Maintenance);
    }
  }
}
