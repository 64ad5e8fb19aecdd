# Car rental record stores, modelled in Dafny

This project models the core of a console car-rental system written in C++.

- **Entities.** There are three: `Car`, `Customer` and `Booking`. They carry validation rules, enum/text tables and date checks.
- **Stores.** Three flat-file stores keep the entities in CSV files: `CarService`, `CustomerService` and `BookingService`.
- **How a store works.** Every store operation reloads the whole file, which means:
  - skip the first line and blank lines;
  - decode each line;
  - drop records whose id is not positive;
  - set `nextId` to one more than the largest id.
  It then works on the list. When something changed, it writes the header and one line per record back to the file.

Modules:

| file | module | models |
|---|---|---|
| `text.dfy` | `Text` | The C/C++ library routines the codecs use: the `std::getline` field split, `std::stoi`, `int` printing, `::tolower`, `std::string::find`. Also an abstract text form for `double`. |
| `records.dfy` | `Records` | The loops shared by the stores, over a sequence: filter, first match, replace the first match, `std::remove_if`, count, maximum id. |
| `storage.dfy` | `Storage` | The data file (missing, or present with its text). |
| | | The lines a load reads and the text a save writes. |
| | | The load filter. |
| `dates.dfy` | `Dates` | `YYYY-MM-DD` strings as the regular expression and `sscanf` read them. |
| `cars.dfy`, `customers.dfy`, `bookings.dfy` | `Cars`, `Customers`, `Bookings` | The entity classes. |
| `car_store.dfy`, `customer_store.dfy`, `booking_store.dfy` | `CarStore`, `CustomerStore`, `BookingStore` | The three services. |

Design of the model:

- **Entities are datatypes.** The C++ classes are copied by value into and out of vectors, so a setter becomes a datatype update.
- **Services are classes.**
  - Each has a mutable `file: FileState` and a mutable `nextId`, plus `const writable` (whether the file can be opened for writing).
  - Car and booking services also have `const doubles: DoubleCodec`, which says how a `double` is printed and read.
  - Each C++ method is a Dafny method with the same loops. It is specified by functions of the file: `LoadedCars(file)`, `RenderCars(header, cars)`, `AddStep(...)` and the like.
  - The lemmas about the stores are stated in terms of those functions.
- **The data file is its text.** Lines are read with the same getline split as fields, so a line break inside a field really does start a new line.

## Model

| member | source | states |
|---|---|---|
| Text.ToLower | services/CarService.cpp:41-42 | Every character is passed through `::tolower`, and the length is kept. |
| Text.ToLowerIdempotent | services/CarService.cpp:50-53 | Lower-casing twice is lower-casing once. |
| Text.ContainsEmpty | services/CarService.cpp:55-58 | `find("")` succeeds on every string, so an empty search term matches everything. |
| Text.SplitOn | services/CarService.cpp:206-212 | The `getline` loop yields exactly the tokens `Split` defines. |
| Text.SplitJoin | services/CarService.cpp:206-212 | Splitting a line joined from fields with no commas gives the fields back, except that an empty last field is lost. |
| Text.SplitExamples | services/CarService.cpp:210-212 | An empty line has no fields. An empty middle field is kept, and a trailing comma adds none. |
| Text.SplitTerminated | services/CarService.cpp:116-118 | Reading a file of newline-terminated lines gives back exactly those lines. |
| Text.JoinSplitsLast | services/BookingService.cpp:144-151 | A last field that contains a comma joins into the same text as two fields. |
| Text.IntToString | services/CarService.cpp:239 | An `int` prints as a non-empty text with no comma and no line break. |
| Text.ParseIntToString | services/CarService.cpp:216 | `std::stoi` reads back exactly the `int` that `<<` printed. |
| Text.ReportedEmpty | models/Car.cpp:117-127 | A message list built rule by rule is empty exactly when no rule fails. |
| Text.ReportedContains | models/Car.cpp:117-127 | Every failed rule's message is in the list. |
| Text.ReportedCons | models/Car.cpp:117-127 | The first rule's message, if it fails, comes before all the others. |
| Text.ReportedFirst | models/Car.cpp:117-127 | Of the first two rules, the first that fails has its message at the head of the list. |
| Text.ParseIntExamples | services/CarService.cpp:216 | `stoi` skips leading blanks, takes a sign and ignores trailing text. With no digit it fails. |
| Records.SelectSpec | services/CarService.cpp:44-61 | A filtering scan keeps an element exactly when the test holds. The result is the input's elements at exactly the positions that pass, in order. |
| Records.SelectAll | services/CarService.cpp:44-61 | A scan keeps every element exactly when the test holds for all of them. |
| Records.SelectPartition | services/BookingService.cpp:33-42 | The kept and the dropped elements add up to the whole list. |
| Records.FindFirst | services/CarService.cpp:30-34 | The first-match loop returns the position `FirstIndex` names: the first match, or -1. |
| Records.FirstIndex | services/CarService.cpp:30-34 | -1, or a matching position with no match before it. |
| Records.ReplaceFirst | services/CarService.cpp:81-86 | The length is kept. The first match becomes the new record, and every other position is unchanged. With no match the list is unchanged. |
| Records.MaxKey | services/CarService.cpp:254-262 | Never below 0. No key exceeds it. It is 0 or one of the keys. |
| Records.RemoveIf | services/CarService.cpp:94-95 | The kept elements are moved, in order, to the front of the array. |
| Records.CountIf | services/CarService.cpp:170-179 | The counting loop counts the elements that pass the test. |
| Storage.DataLines | services/CarService.cpp:128-139 | A missing file and an empty file have no lines. Otherwise every line but the first is read. |
| Storage.ReadRendered | services/CarService.cpp:106-139 | Loading a file just saved gives the saved record lines back. |
| Storage.KeepDecoded | services/CarService.cpp:141-146 | At most one record per line is kept, and every kept record has a positive id. |
| Storage.KeepDecodedAll | services/CarService.cpp:141-146 | Every line gives a record exactly when no line is blank and none decodes to an id of 0 or less. |
| Storage.KeepDecodedOfEncoded | services/CarService.cpp:116-146 | Decoding freshly encoded records with positive ids gives exactly the decoded records, in order. |
| Dates.ScanDateDigits | models/Booking.cpp:101-102 | `sscanf` of a `dddd-dd-dd` string gives the three decimal numbers. |
| Dates.ScanDateInjective | models/Booking.cpp:97-102 | Two well-formed date texts that scan alike are the same text. |
| Dates.LaterIsStrictTotalOrder | models/Booking.cpp:115-125 | The lexicographic order on (year, month, day) is irreflexive, asymmetric, transitive and total. |
| Cars.DefaultCar | models/Car.cpp:6-8 | Id 0, status Available, mileage, year and seats 0. It is never valid. |
| Cars.NewCar | models/Car.cpp:9-16 | Every given field is kept, with id 0, status Available and mileage 0. |
| Cars.YearBoundaries | models/Car.cpp:112-115 | For the year bound, 1900 and 2026 are rejected and 1901 and 2025 accepted. |
| Cars.CarChecksPassWhenValid | models/Car.cpp:112-127 | The seven rules of the message list all pass exactly when `isValid` holds. |
| Cars.ValidationErrors | models/Car.cpp:112-127 | The messages of the failed rules, in the order make, model, year, color, plate, rate, seats. Every failed rule's message is present. Empty exactly when `IsValid` holds. The make message comes first, then the model's. |
| Cars.ValidityIgnoresState | models/Car.cpp:112-115 | Validity does not depend on the id, status, mileage, fuel type or transmission. A mileage reading keeps a car valid or invalid. |
| Cars.ValidCarExample | models/Car.cpp:112-115 | A typical new car is valid. The same car with a rate of 0 is not. |
| Cars.NewCarIsAvailable | models/Car.cpp:81-83 | New cars and the default car are available. Availability depends only on the status, and a mileage reading keeps it. |
| Cars.UpdateMileage | models/Car.cpp:75-79 | The mileage becomes the larger of the old and new readings. No other field changes. |
| Cars.UpdateMileageIdempotent | models/Car.cpp:75-79 | A repeated reading, or a smaller later one, changes nothing more. |
| Cars.StatusRoundTrip | models/Car.cpp:130-149 | Parsing a printed status gives the status back. |
| Cars.FuelTypeRoundTrip | models/Car.cpp:151-170 | Parsing a printed fuel type gives it back. |
| Cars.TransmissionRoundTrip | models/Car.cpp:172-187 | Parsing a printed transmission gives it back. |
| Cars.ParsingIgnoresCase | models/Car.cpp:130-179 | Any spelling that equals a canonical name up to case parses to that value. |
| Cars.ParsersSeeLowerCase | models/Car.cpp:130-179 | The three parsers depend only on the lower-cased text. |
| Customers.DefaultCustomer | models/Customer.cpp:7-8 | Id 0 and empty texts. It is never valid. |
| Customers.NewCustomer | models/Customer.cpp:10-16 | Every given field is kept, with id 0. |
| Customers.FullName | models/Customer.cpp:39-41 | The first name, one space, then the last name. |
| Customers.IsValidEmailMatchesPattern | models/Customer.cpp:105-108 | The search-free check accepts exactly the texts of the form L@D.T, where L is over `[A-Za-z0-9._%+-]`, D is over `[A-Za-z0-9.-]` and T is two or more letters. |
| Customers.EmailExample | models/Customer.cpp:105-108 | "ada@mail.org" is accepted. |
| Customers.IsValidPhone | models/Customer.cpp:110-120 | The digit-collecting loop accepts exactly the texts with ten digits. |
| Customers.DigitsAppend | models/Customer.cpp:112-117 | The digits of a concatenation are the digits of each part, in order. |
| Customers.PhoneWithDashes | models/Customer.cpp:110-120 | "555-123-4567" is accepted. |
| Customers.PhoneTooShort | models/Customer.cpp:110-120 | "555-123-456" is rejected. |
| Customers.IsValidLicenseNumber | models/Customer.cpp:122-129 | The loop accepts exactly the texts of five or more letters and digits. |
| Customers.LicenseNumberExamples | models/Customer.cpp:122-129 | "AB12" and "AB-123" are rejected and "AB123" is accepted. |
| Customers.CustomerChecksPassWhenValid | models/Customer.cpp:86-102 | The seven rules of the message list all pass exactly when `isValid` holds. |
| Customers.ValidationErrors | models/Customer.cpp:86-102 | The messages of the failed rules, in field order. Every failed rule's message is present. Empty exactly when `IsValid` holds. The first-name message comes first. |
| Customers.LicenseValidUntilExpiry | models/Customer.cpp:43-65 | The licence is valid exactly when the expiry has the `YYYY-MM-DD` shape and today is not later than it. |
| Customers.ValidCustomerWithInvalidLicense | models/Customer.cpp:86-90 | A valid customer can hold a licence that is not valid, because validation checks only that an expiry is present. |
| Bookings.DefaultBooking | models/Booking.cpp:7-8 | Ids 0, status "Active", no notes. It is never valid. |
| Bookings.NewBooking | models/Booking.cpp:10-14 | Every given field is kept, with id 0 and no notes. |
| Bookings.IsValidDateMeaning | models/Booking.cpp:97-113 | Validity means the `dddd-dd-dd` shape, a year in 1900..2100, a month in 1..12, and a day from 1 to the month's length, where February always has 29 days. |
| Bookings.IsValidDateExamples | models/Booking.cpp:97-113 | 2023-02-29 is accepted. 2024-02-30, 2024-04-31, month 13, year 1899 and a one-digit month are rejected. |
| Bookings.IsDateAfterIsLater | models/Booking.cpp:115-125 | The comparison chain is the lexicographic order on the scanned dates. |
| Bookings.IsDateAfterTrichotomy | models/Booking.cpp:115-125 | It is irreflexive and asymmetric. For two well-formed dates, after, before or equal always holds. |
| Bookings.DaysBetweenAntisymmetric | models/Booking.cpp:127-137 | 0 from a date to itself. Swapping the dates negates the count. |
| Bookings.DaysBetweenExamples | models/Booking.cpp:133-136 | 2024-01-10 to 2024-01-15 is 5. 2024-01-31 to 2024-02-01 is 0, although the second date is later. |
| Bookings.DaysBetweenFollowsOrder | models/Booking.cpp:127-137 | For valid dates, a later end never gives a negative count, and a positive count means a later end. |
| Bookings.Duration | models/Booking.cpp:37-39 | A valid booking never lasts a negative number of days. Between valid dates, a positive duration means the end is after the start. |
| Bookings.ValidBookingOfNoDays | models/Booking.cpp:37-39 | A valid booking from 2024-01-31 to 2024-02-01 lasts 0 days. |
| Bookings.SameDayBookingInvalid | models/Booking.cpp:80-83 | A booking that ends on its start day is not valid. |
| Bookings.BookingChecksPassWhenValid | models/Booking.cpp:80-94 | The six rules of the message list all pass exactly when `isValid` holds, whatever the order check yields on malformed dates. |
| Bookings.ValidationErrors | models/Booking.cpp:80-94 | The messages of the failed rules, in the order customer, car, start date, end date, order, cost. Every failed rule's message is present; a malformed start or end date always brings its own message. Empty exactly when `IsValid` holds. The customer message comes first. |
| Bookings.AtMostOneStatus | models/Booking.cpp:41-51 | At most one of Active, Completed and Cancelled holds. "active" matches none of them. |
| CarStore.CarFromFields | services/CarService.cpp:214-234 | Fewer than 12 fields, or any unreadable id, year, rate, mileage or seat count, give the default car. Otherwise every field is read as given, and status, fuel type and transmission through their parsers. |
| CarStore.CarLineIsOneLine | services/CarService.cpp:237-252 | A written line holds no line break. |
| CarStore.CarLineRoundTrip | services/CarService.cpp:204-252 | Parsing a written line gives the car back, except the rate, which is whatever its printed form reads back as. |
| CarStore.ShortLineGivesDefault | services/CarService.cpp:214 | "1,Ford" and the empty line read as the default car. |
| CarStore.LoadedCars | services/CarService.cpp:124-152 | Every loaded car has a positive id. |
| CarStore.NextIdAfterLoad | services/CarService.cpp:150 | After loading a present file, nextId is one past the largest loaded id, or 1 when no id is positive: it is at least 1, above every loaded id, and either 1 or one past some loaded id. On a missing file it is unchanged. |
| CarStore.HeaderIsOneLine | services/CarService.cpp:113 | The header has no line break. |
| CarStore.LoadRendered | services/CarService.cpp:106-152 | Loading a saved list gives the list back, with the rates as reread. |
| CarStore.AddStep | services/CarService.cpp:11-22 | An add leaves a data file and moves nextId one past the loaded maximum. |
| CarStore.CarWithId | services/CarService.cpp:28-36 | The first car with the id, or the default car when there is none. |
| CarStore.SearchIsOrderedFilter | services/CarService.cpp:38-64 | The results are the matching cars in load order. An empty term keeps all of them. |
| CarStore.AvailableIsOrderedFilter | services/CarService.cpp:66-77 | Exactly the available cars, in order. |
| CarStore.StatusCountsBounded | services/CarService.cpp:162-190 | The available, rented and maintenance counts add up to at most the total. |
| CarStore.DeleteRemovesEveryMatch | services/CarService.cpp:92-104 | No car with the id is left and every other car is, in order. Nothing is removed exactly when no car has the id. |
| CarStore.NextIdExample | services/CarService.cpp:254-262 | Ids 3, 7 and 2 give nextId 8. |
| CarStore.AddStepLoads | services/CarService.cpp:11-22 | After an add, the next load gives the cars loaded before, then the new car with the next id. |
| CarStore.LargestAddedId | services/CarService.cpp:254-262 | Cars numbered 1..N have N as their largest id. |
| CarStore.AddOneMore | services/CarService.cpp:11-22 | Appending the next car keeps the ids 1..N+1 and the fields. |
| CarStore.AddKeepsOrder | services/CarService.cpp:11-22 | One more successful add keeps the picture: ids in order and nextId one past them. |
| CarStore.SequentialIds | services/CarService.cpp:7-22 | Starting from no file and nextId 1, N successful adds give ids 1..N in order, keep all fields but the rate, and leave nextId at N+1. |
| CarStore.CarService.constructor | services/CarService.cpp:7-9 | Starts at nextId 1, then loads. |
| CarStore.CarService.ParseCarFromLine | services/CarService.cpp:204-235 | Split then convert, as the line decoder says. |
| CarStore.CarService.UpdateNextId | services/CarService.cpp:254-262 | nextId becomes the largest id plus one. The file is untouched. |
| CarStore.CarService.LoadCars | services/CarService.cpp:124-152 | Returns the loaded cars. The file is unchanged. nextId is recomputed, or kept for a missing file. |
| CarStore.CarService.SaveCars | services/CarService.cpp:106-122 | False when the file cannot be opened. Otherwise the file becomes the header plus one line per car. |
| CarStore.CarService.AddCar | services/CarService.cpp:11-22 | The new state is `AddStep`'s. nextId moves on even when the save fails. |
| CarStore.CarService.GetAllCars | services/CarService.cpp:24-26 | The loaded cars. |
| CarStore.CarService.GetCarById | services/CarService.cpp:28-36 | `CarWithId` of the loaded cars. |
| CarStore.CarService.SearchCars | services/CarService.cpp:38-64 | The ordered filter by `MatchesSearch` on the lower-cased term. |
| CarStore.CarService.GetAvailableCars | services/CarService.cpp:66-77 | The ordered filter by status Available. |
| CarStore.CarService.UpdateCar | services/CarService.cpp:79-90 | With a match, it returns whether the save succeeded and the file holds the list with the first match replaced. With no match, it returns false and the file is unchanged. |
| CarStore.CarService.DeleteCar | services/CarService.cpp:92-104 | When something was removed, the rest is saved. Otherwise it returns false and the file is unchanged. |
| CarStore.CarService.GetTotalCars | services/CarService.cpp:162-164 | The number of loaded cars. |
| CarStore.CarService.GetAvailableCarsCount | services/CarService.cpp:166-168 | The number of available cars. |
| CarStore.CarService.GetRentedCarsCount | services/CarService.cpp:170-179 | The number of rented cars. |
| CarStore.CarService.GetMaintenanceCarsCount | services/CarService.cpp:181-190 | The number of cars in maintenance. |
| CustomerStore.CustomerFromFields | services/CustomerService.cpp:121-135 | Eight or more fields and a readable id give those fields. Otherwise the result is the default customer. |
| CustomerStore.CustomerLineIsOneLine | services/CustomerService.cpp:138-149 | A written line holds no line break. |
| CustomerStore.CustomerLineRoundTrip | services/CustomerService.cpp:111-149 | A customer with clean fields and an expiry reads back exactly. |
| CustomerStore.EmptyExpiryGivesDefault | services/CustomerService.cpp:121 | An empty expiry leaves seven fields, which read as the default customer. |
| CustomerStore.SavedWithoutExpiryIsLost | services/CustomerService.cpp:76-107 | A customer saved without an expiry is gone at the next load. |
| CustomerStore.LoadedCustomers | services/CustomerService.cpp:88-107 | Every loaded customer has a positive id. |
| CustomerStore.NextIdAfterLoad | services/CustomerService.cpp:105 | After loading a present file, nextId is one past the largest loaded id, or 1 when no id is positive: it is at least 1, above every loaded id, and either 1 or one past some loaded id. On a missing file it is unchanged. |
| CustomerStore.HeaderIsOneLine | services/CustomerService.cpp:80 | The header has no line break. |
| CustomerStore.LoadRendered | services/CustomerService.cpp:76-107 | Loading a saved list of storable customers gives exactly that list. |
| CustomerStore.AddStep | services/CustomerService.cpp:10-17 | An add leaves a data file and moves nextId one past the loaded maximum. |
| CustomerStore.CustomerWithId | services/CustomerService.cpp:23-31 | The first customer with the id, or the default customer. |
| CustomerStore.SearchIsOrderedFilter | services/CustomerService.cpp:33-51 | The results are the customers whose lower-cased full name or e-mail contains the lower-cased term, in order. An empty term keeps all of them. |
| CustomerStore.DeleteRemovesEveryMatch | services/CustomerService.cpp:64-74 | No customer with the id is left and every other one is, in order. Nothing is removed exactly when none has the id. |
| CustomerStore.AddStepLoads | services/CustomerService.cpp:10-17 | After an add, the next load gives the customers loaded before, then the new one with the next id. |
| CustomerStore.LargestAddedId | services/CustomerService.cpp:151-159 | Customers numbered 1..N have N as their largest id. |
| CustomerStore.AddOneMore | services/CustomerService.cpp:10-17 | Appending the next customer keeps the ids 1..N+1 and the fields. |
| CustomerStore.AddedStorable | services/CustomerService.cpp:10-17 | Giving storable customers their ids keeps them storable. |
| CustomerStore.AddKeepsOrder | services/CustomerService.cpp:10-17 | One more successful add keeps the ids in order and nextId one past them. |
| CustomerStore.SequentialIds | services/CustomerService.cpp:6-17 | Starting from no file and nextId 1, N successful adds give ids 1..N in order, with every other field exact, and leave nextId at N+1. |
| CustomerStore.CustomerService.constructor | services/CustomerService.cpp:6-8 | Starts at nextId 1, then loads. |
| CustomerStore.CustomerService.ParseCustomerFromLine | services/CustomerService.cpp:111-136 | Split then convert, as the line decoder says. |
| CustomerStore.CustomerService.UpdateNextId | services/CustomerService.cpp:151-159 | nextId becomes the largest id plus one. |
| CustomerStore.CustomerService.LoadCustomers | services/CustomerService.cpp:88-107 | Returns the loaded customers. The file is unchanged. nextId is recomputed, or kept for a missing file. |
| CustomerStore.CustomerService.SaveCustomers | services/CustomerService.cpp:76-86 | False when the file cannot be opened. Otherwise the file becomes the header plus one line per customer. |
| CustomerStore.CustomerService.AddCustomer | services/CustomerService.cpp:10-17 | The new state is `AddStep`'s. nextId moves on even when the save fails. |
| CustomerStore.CustomerService.GetAllCustomers | services/CustomerService.cpp:19-21 | The loaded customers. |
| CustomerStore.CustomerService.GetCustomerById | services/CustomerService.cpp:23-31 | `CustomerWithId` of the loaded customers. |
| CustomerStore.CustomerService.SearchCustomers | services/CustomerService.cpp:33-51 | The ordered filter by `MatchesSearch` on the lower-cased term. |
| CustomerStore.CustomerService.UpdateCustomer | services/CustomerService.cpp:53-62 | With a match, the list with the first match replaced is saved. With no match, it returns false and the file is unchanged. |
| CustomerStore.CustomerService.DeleteCustomer | services/CustomerService.cpp:64-74 | When something was removed, the rest is saved. Otherwise it returns false and the file is unchanged. |
| BookingStore.BookingFromFields | services/BookingService.cpp:123-139 | Fewer than seven fields, or any unreadable id or cost, give the default booking. Otherwise the fields are read as given, with notes only from an eighth field. |
| BookingStore.BookingLineIsOneLine | services/BookingService.cpp:142-153 | A written line holds no line break. |
| BookingStore.BookingLineRoundTrip | services/BookingService.cpp:113-153 | Parsing a written line gives the booking back, cost as reread. Empty notes give a seven-field line that still reads back. |
| BookingStore.NotesCutAtComma | services/BookingService.cpp:132-134 | Notes holding a comma are read back only up to the comma. |
| BookingStore.LoadedBookings | services/BookingService.cpp:90-109 | Every loaded booking has a positive id. |
| BookingStore.NextIdAfterLoad | services/BookingService.cpp:107 | After loading a present file, nextId is one past the largest loaded id, or 1 when no id is positive: it is at least 1, above every loaded id, and either 1 or one past some loaded id. On a missing file it is unchanged. |
| BookingStore.HeaderIsOneLine | services/BookingService.cpp:82 | The header has no line break. |
| BookingStore.LoadRendered | services/BookingService.cpp:78-109 | Loading a saved list gives the list back, costs as reread. |
| BookingStore.AddStep | services/BookingService.cpp:10-17 | An add leaves a data file and moves nextId one past the loaded maximum. |
| BookingStore.BookingWithId | services/BookingService.cpp:23-31 | The first booking with the id, or the default booking. |
| BookingStore.ByCustomerAndCarAreOrderedFilters | services/BookingService.cpp:33-53 | Exactly the bookings with that customer, or with that car, in load order. |
| BookingStore.DeleteRemovesEveryMatch | services/BookingService.cpp:66-76 | No booking with the id is left and every other one is, in order. Nothing is removed exactly when none has the id. |
| BookingStore.AddStepLoads | services/BookingService.cpp:10-17 | After an add, the next load gives the bookings loaded before, then the new one with the next id. |
| BookingStore.LargestAddedId | services/BookingService.cpp:155-163 | Bookings numbered 1..N have N as their largest id. |
| BookingStore.AddOneMore | services/BookingService.cpp:10-17 | Appending the next booking keeps the ids 1..N+1 and the fields. |
| BookingStore.AddKeepsOrder | services/BookingService.cpp:10-17 | One more successful add keeps the ids in order and nextId one past them. |
| BookingStore.SequentialIds | services/BookingService.cpp:6-17 | Starting from no file and nextId 1, N successful adds give ids 1..N in order, keep all fields but the cost, and leave nextId at N+1. |
| BookingStore.BookingService.constructor | services/BookingService.cpp:6-8 | Starts at nextId 1, then loads. |
| BookingStore.BookingService.ParseBookingFromLine | services/BookingService.cpp:113-140 | Split then convert, as the line decoder says. |
| BookingStore.BookingService.UpdateNextId | services/BookingService.cpp:155-163 | nextId becomes the largest id plus one. |
| BookingStore.BookingService.LoadBookings | services/BookingService.cpp:90-109 | Returns the loaded bookings. The file is unchanged. nextId is recomputed, or kept for a missing file. |
| BookingStore.BookingService.SaveBookings | services/BookingService.cpp:78-88 | False when the file cannot be opened. Otherwise the file becomes the header plus one line per booking. |
| BookingStore.BookingService.AddBooking | services/BookingService.cpp:10-17 | The new state is `AddStep`'s. nextId moves on even when the save fails. |
| BookingStore.BookingService.GetAllBookings | services/BookingService.cpp:19-21 | The loaded bookings. |
| BookingStore.BookingService.GetBookingById | services/BookingService.cpp:23-31 | `BookingWithId` of the loaded bookings. |
| BookingStore.BookingService.GetBookingsByCustomerId | services/BookingService.cpp:33-42 | The ordered filter by customer id. |
| BookingStore.BookingService.GetBookingsByCarId | services/BookingService.cpp:44-53 | The ordered filter by car id. |
| BookingStore.BookingService.UpdateBooking | services/BookingService.cpp:55-64 | With a match, the list with the first match replaced is saved. With no match, it returns false and the file is unchanged. |
| BookingStore.BookingService.DeleteBooking | services/BookingService.cpp:66-76 | When something was removed, the rest is saved. Otherwise it returns false and the file is unchanged. |

Notes on where the model reads the code closely:

- **A missing file leaves `nextId` alone.** `loadCars`, `loadCustomers` and `loadBookings` return before calling `updateNextId` when the file cannot be opened. So `nextId` is kept as it was, rather than recomputed after every load. `NextIdAfterLoad` says so.
- **Dates that are not well formed.**
  - `isDateAfter` and `daysBetween` read the numbers that `sscanf` stores. For a date such as `2024-1-5` the scan still reads three numbers, so the comparison has a definite answer. Only when the scan stops early (as on `""` or `2024-01`) are some numbers left unset.
  - `IsDateAfter` and `DaysBetween` model only dates of the form `dddd-dd-dd`, so they require them.
  - `getValidationErrors` calls `isDateAfter` even on malformed dates. What it answers there is a parameter, `unspecifiedOrder`.
  - The conjunction in `isValid` only reaches `isDateAfter` after both dates have passed `isValidDate`.
- **The approximate day count.** It gives 0 days from 2024-01-31 to 2024-02-01: both dates get the day number 2024·365 + 61. The model follows the code's formula.
- **Checks without a regex engine.**
  - The e-mail check is a search-free predicate.
  - `IsValidEmailMatchesPattern` proves it equals the "some split matches the pattern" reading of the regular expression.
  - The date-shape regular expression is a character-class predicate.

## Left out

- The console user interface (`ui/`), `main.cpp` and the filesystem bootstrap in `database/FileManager.cpp`. They only prompt, print and create directories.
- `services/PaymentService.cpp`. It is floating-point tax arithmetic and console output.
- The `display`/`displaySummary` methods, `Car::calculateRentalCost`, `Booking::calculateCost` and `CarService::getAverageDailyRate`. They are output and floating-point arithmetic.
- The getters and setters. The datatype fields and updates stand for them.
- `CarService::getNextId`/`setNextId` and the other `getNextId`s. The `nextId` field is public in the model.
- The text form of `double` (six significant digits from `<<`, and `std::stod`). It is left abstract as `DoubleCodec`: a format function, and a parse function that may fail.
- CarStore.CarLineRoundTrip: the rate is not claimed to round-trip exactly, only to read back as `dc.Reread` of itself. The same holds for BookingStore.BookingLineRoundTrip and the cost.
- Cars.ValidationErrors: a `double` is a `real` here, so there is no NaN. In the source, `isValid` tests `dailyRate > 0` (models/Car.cpp:114) while the message list tests `dailyRate <= 0` (models/Car.cpp:124). A NaN rate, which `std::stod("nan")` produces, fails both, so the car is invalid with an empty message list. The proved "empty exactly when valid" does not hold for that input.
- Bookings.ValidationErrors: for the same reason, a NaN total cost fails `totalCost >= 0` in `isValid` (models/Booking.cpp:82) and also fails `totalCost < 0` in the message list (models/Booking.cpp:92). Such a booking is invalid but gets no message. The model has no NaN, so it does not capture this.
- Bookings.ValidationErrors: on a date that is not `dddd-dd-dd` but that `sscanf` still reads in full (such as `2024-1-5`), `getValidationErrors` compares the scanned numbers (models/Booking.cpp:91, calling `isDateAfter` at models/Booking.cpp:115-125). The model does not follow that comparison, nor the unset numbers of a scan that stops early; the outcome of the order check on a malformed date is the parameter `unspecifiedOrder`.
- RereadStable: the sequential-id lemmas for cars and bookings assume that a reread `double` can itself be stored (`DoubleCodec.RereadStable`). The customer lemma needs no such assumption.
- The wall clock in `Customer::isLicenseValid`. Today's date is a parameter.
- The data file's path and the file-system calls. The file is a `FileState` field. Whether it can be opened for writing is the constant `writable`. A failed close and partial writes are not modelled.
- 32-bit `int` range. `std::stoi`'s `out_of_range` exception and overflow in `year*365` are not modelled, so integers are unbounded.
