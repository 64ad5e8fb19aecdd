/** The Car entity (models/Car.cpp, models/Car.h): its fields, validation, the
    mileage rule and the enum <-> text tables. A Car is a value: the program copies
    cars into and out of vectors, so its setters are datatype updates here. */
module Cars {
  import opened Text

  datatype CarStatus = Available | Rented | Maintenance | Retired
  datatype FuelType = Gasoline | Diesel | Electric | Hybrid
  datatype Transmission = Manual | Automatic

  /** `dailyRate` is a C++ double, modelled as a real. */
  datatype Car = Car(
    carId: int,
    make: string,
    model: string,
    year: int,
    color: string,
    licensePlate: string,
    dailyRate: real,
    status: CarStatus,
    mileage: int,
    fuelType: FuelType,
    transmission: Transmission,
    seats: int)

  /** Car(): the "no car" value, also returned when a lookup finds nothing. */
  function DefaultCar(): (c: Car)
    ensures c.carId == 0 && c.status == Available && c.mileage == 0
    ensures c.year == 0 && c.seats == 0 && c.make == ""
    ensures !IsValid(c)
  {
    Car(0, "", "", 0, "", "", 0.0, Available, 0, Gasoline, Manual, 0)
  }

  /** The field constructor: no id yet, status Available, mileage 0. */
  function NewCar(make: string, model: string, year: int, color: string, licensePlate: string,
                  dailyRate: real, fuelType: FuelType, transmission: Transmission, seats: int): (c: Car)
    ensures c.carId == 0 && c.status == Available && c.mileage == 0
    ensures c.make == make && c.model == model && c.year == year && c.color == color
    ensures c.licensePlate == licensePlate && c.dailyRate == dailyRate
    ensures c.fuelType == fuelType && c.transmission == transmission && c.seats == seats
  {
    Car(0, make, model, year, color, licensePlate, dailyRate, Available, 0, fuelType, transmission, seats)
  }

  predicate YearInRange(year: int) { 1900 < year <= 2025 }

  /** isValid: required texts present, year in 1901..2025, positive rate and seats. */
  predicate IsValid(c: Car)
  {
    && c.make != "" && c.model != "" && YearInRange(c.year)
    && c.color != "" && c.licensePlate != "" && c.dailyRate > 0.0 && c.seats > 0
  }

  /** The year bounds are exclusive below and inclusive above. */
  lemma YearBoundaries()
    ensures !YearInRange(1900) && YearInRange(1901) && YearInRange(2025) && !YearInRange(2026)
  {
  }

  /** The rules of getValidationErrors in the order it tries them: make, model,
      year, color, plate, rate, seats. */
  function CarChecks(c: Car): seq<Check>
  {
    [Check(c.make == "", "Make is required. "),
     Check(c.model == "", "Model is required. "),
     Check(c.year <= 1900 || c.year > 2025, "Year must be between 1901 and 2025. "),
     Check(c.color == "", "Color is required. "),
     Check(c.licensePlate == "", "License plate is required. "),
     Check(c.dailyRate <= 0.0, "Daily rate must be positive. "),
     Check(c.seats <= 0, "Seats must be positive. ")]
  }

  /** No rule of the table fails exactly when the car is valid. */
  lemma CarChecksPassWhenValid(c: Car)
    ensures (forall k | 0 <= k < |CarChecks(c)| :: !CarChecks(c)[k].fails) <==> IsValid(c)
  {
    var cs := CarChecks(c);
    if !IsValid(c) {
      assert cs[0].fails || cs[1].fails || cs[2].fails || cs[3].fails || cs[4].fails || cs[5].fails || cs[6].fails;
    }
  }

  /** getValidationErrors: the message of every failed rule, in the order of the
      rule table. The messages are empty exactly for a valid car, every failed rule
      is reported, and a missing make is reported first. */
  function ValidationErrors(c: Car): (r: string)
    ensures r == "" <==> IsValid(c)
    ensures forall k | 0 <= k < |CarChecks(c)| && CarChecks(c)[k].fails :: Contains(r, CarChecks(c)[k].text)
    ensures c.make == "" ==> "Make is required. " <= r
    ensures c.make != "" && c.model == "" ==> "Model is required. " <= r
  {
    var cs := CarChecks(c);
    ReportedEmpty(cs);
    CarChecksPassWhenValid(c);
    ReportedContainsAll(cs);
    ReportedFirst(cs);
    Reported(cs)
  }

  /** updateMileage: a smaller reading is ignored, so mileage never decreases. */
  function UpdateMileage(c: Car, newMileage: int): (r: Car)
    ensures r.mileage >= c.mileage && r.mileage >= newMileage
    ensures r.mileage == c.mileage || r.mileage == newMileage
    ensures r == c.(mileage := r.mileage)
  {
    if newMileage >= c.mileage then c.(mileage := newMileage) else c
  }

  /** Applying a reading twice, or a smaller one afterwards, changes nothing more. */
  lemma UpdateMileageIdempotent(c: Car, n: int, m: int)
    ensures UpdateMileage(UpdateMileage(c, n), n) == UpdateMileage(c, n)
    ensures m <= n ==> UpdateMileage(UpdateMileage(c, n), m) == UpdateMileage(c, n)
  {
  }

  predicate IsAvailable(c: Car)
  {
    c.status == Available
  }

  /** A new car is available, and so is the default car; a mileage reading does not
      change availability, which depends on the status alone. */
  lemma NewCarIsAvailable(make: string, model: string, year: int, color: string, licensePlate: string,
                          dailyRate: real, fuelType: FuelType, transmission: Transmission, seats: int,
                          c: Car, m: int, s: CarStatus)
    ensures IsAvailable(NewCar(make, model, year, color, licensePlate, dailyRate, fuelType, transmission, seats))
    ensures IsAvailable(DefaultCar())
    ensures IsAvailable(UpdateMileage(c, m)) == IsAvailable(c)
    ensures IsAvailable(c.(status := s)) <==> s == Available
  {
  }

  /** Validity looks at the descriptive fields only: not at the id, the status, the
      mileage, the fuel type or the transmission. So a mileage reading keeps a car
      valid, and a valid car stays valid whatever its status. */
  lemma ValidityIgnoresState(c: Car, id: int, s: CarStatus, m: int, f: FuelType, t: Transmission)
    ensures IsValid(c.(carId := id, status := s, mileage := m, fuelType := f, transmission := t)) == IsValid(c)
    ensures IsValid(UpdateMileage(c, m)) == IsValid(c)
  {
  }

  /** A typical car passes validation. */
  lemma ValidCarExample()
    ensures IsValid(NewCar("Toyota", "Camry", 2022, "Blue", "ABC123", 45.0, Gasoline, Automatic, 5))
    ensures !IsValid(NewCar("Toyota", "Camry", 2022, "Blue", "ABC123", 0.0, Gasoline, Automatic, 5))
  {
  }

  // ---------------------------------------------------------------------------
  // Enum tables

  function StatusToString(s: CarStatus): string
  {
    match s
    case Available => "Available"
    case Rented => "Rented"
    case Maintenance => "Maintenance"
    case Retired => "Retired"
  }

  /** stringToStatus: case-insensitive; unknown text falls back to Available. */
  function StringToStatus(text: string): CarStatus
  {
    var lower := ToLower(text);
    if lower == "available" then Available
    else if lower == "rented" then Rented
    else if lower == "maintenance" then Maintenance
    else if lower == "retired" then Retired
    else Available
  }

  function FuelTypeToString(f: FuelType): string
  {
    match f
    case Gasoline => "Gasoline"
    case Diesel => "Diesel"
    case Electric => "Electric"
    case Hybrid => "Hybrid"
  }

  /** stringToFuelType: case-insensitive; unknown text falls back to Gasoline. */
  function StringToFuelType(text: string): FuelType
  {
    var lower := ToLower(text);
    if lower == "gasoline" then Gasoline
    else if lower == "diesel" then Diesel
    else if lower == "electric" then Electric
    else if lower == "hybrid" then Hybrid
    else Gasoline
  }

  function TransmissionToString(t: Transmission): string
  {
    match t
    case Manual => "Manual"
    case Automatic => "Automatic"
  }

  /** stringToTransmission: case-insensitive; unknown text falls back to Manual. */
  function StringToTransmission(text: string): Transmission
  {
    var lower := ToLower(text);
    if lower == "manual" then Manual
    else if lower == "automatic" then Automatic
    else Manual
  }

  /** The lower-case spelling of each status, which is what the parser compares against. */
  lemma StatusNamesLowered()
    ensures ToLower("Available") == "available" && ToLower("Rented") == "rented"
    ensures ToLower("Maintenance") == "maintenance" && ToLower("Retired") == "retired"
  {
    assert ToLower("Available") == "available";
    assert ToLower("Rented") == "rented";
    assert ToLower("Maintenance") == "maintenance";
    assert ToLower("Retired") == "retired";
  }

  lemma StatusRoundTrip(s: CarStatus)
    ensures StringToStatus(StatusToString(s)) == s
  {
    StatusNamesLowered();
  }

  lemma FuelTypeRoundTrip(f: FuelType)
    ensures StringToFuelType(FuelTypeToString(f)) == f
  {
    assert ToLower("Gasoline") == "gasoline";
    assert ToLower("Diesel") == "diesel";
    assert ToLower("Electric") == "electric";
    assert ToLower("Hybrid") == "hybrid";
  }

  lemma TransmissionRoundTrip(t: Transmission)
    ensures StringToTransmission(TransmissionToString(t)) == t
  {
    assert ToLower("Manual") == "manual";
    assert ToLower("Automatic") == "automatic";
  }

  /** Any spelling that agrees with a canonical name up to case parses to that value. */
  lemma ParsingIgnoresCase(text: string, s: CarStatus, f: FuelType, t: Transmission)
    ensures ToLower(text) == ToLower(StatusToString(s)) ==> StringToStatus(text) == s
    ensures ToLower(text) == ToLower(FuelTypeToString(f)) ==> StringToFuelType(text) == f
    ensures ToLower(text) == ToLower(TransmissionToString(t)) ==> StringToTransmission(text) == t
  {
    StatusRoundTrip(s);
    FuelTypeRoundTrip(f);
    TransmissionRoundTrip(t);
  }

  /** The three parsers see only the lower-cased text. */
  lemma ParsersSeeLowerCase(text: string)
    ensures StringToStatus(ToLower(text)) == StringToStatus(text)
    ensures StringToFuelType(ToLower(text)) == StringToFuelType(text)
    ensures StringToTransmission(ToLower(text)) == StringToTransmission(text)
  {
    ToLowerIdempotent(text);
  }

  /** The canonical names contain no field or line separator. */
  lemma EnumNamesStorable(s: CarStatus, f: FuelType, t: Transmission)
    ensures Clean(StatusToString(s)) && Clean(FuelTypeToString(f)) && Clean(TransmissionToString(t))
  {
  }
}
