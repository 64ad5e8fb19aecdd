/** BookingService (services/BookingService.cpp): the booking records kept in a CSV
    file, handled like the cars and customers: every operation reloads the whole
    file and a change rewrites all of it. The notes field is optional when
    reading, so a line without it is still a booking. */
module BookingStore {
  import opened Text
  import opened Bookings
  import opened Storage
  import Records

  const Header := "ID,CustomerID,CarID," + "StartDate,EndDate," + "TotalCost,Status,Notes"

  function IdOf(b: Booking): int { b.bookingId }
  predicate HasId(b: Booking, id: int) { b.bookingId == id }
  predicate HasCustomer(b: Booking, customerId: int) { b.customerId == customerId }
  predicate HasCar(b: Booking, carId: int) { b.carId == carId }

  // ---------------------------------------------------------------------------
  // Line codec

  /** The eight fields bookingToCsvLine writes, in header order. */
  function BookingFields(b: Booking, dc: DoubleCodec): (fs: seq<string>)
    ensures |fs| == 8 && fs[7] == b.notes
  {
    [IntToString(b.bookingId), IntToString(b.customerId), IntToString(b.carId), b.startDate, b.endDate,
     dc.format(b.totalCost), b.status, b.notes]
  }

  /** bookingToCsvLine: the fields joined by commas. */
  function BookingToCsvLine(b: Booking, dc: DoubleCodec): (line: string)
    ensures line != "" && ',' in line
  {
    JoinContainsDelimiter(BookingFields(b, dc), ',');
    Join(BookingFields(b, dc), ',')
  }

  /** The body of parseBookingFromLine after splitting: seven or more fields, the
      three ids and the cost readable, the notes taken from an eighth field when
      there is one; fewer fields, or any conversion that throws, give the default
      booking. */
  function BookingFromFields(fs: seq<string>, dc: DoubleCodec): (b: Booking)
    ensures |fs| < 7 ==> b == DefaultBooking()
    ensures |fs| >= 7 && (ParseInt(fs[0]).None? || ParseInt(fs[1]).None? || ParseInt(fs[2]).None? || dc.parse(fs[5]).None?)
            ==> b == DefaultBooking()
    ensures |fs| >= 7 && ParseInt(fs[0]).Some? && ParseInt(fs[1]).Some? && ParseInt(fs[2]).Some? && dc.parse(fs[5]).Some? ==>
              && b.bookingId == ParseInt(fs[0]).value && b.customerId == ParseInt(fs[1]).value
              && b.carId == ParseInt(fs[2]).value && b.totalCost == dc.parse(fs[5]).value
              && b.startDate == fs[3] && b.endDate == fs[4] && b.status == fs[6]
              && b.notes == (if |fs| > 7 then fs[7] else "")
  {
    if |fs| < 7 then DefaultBooking()
    else
      match (ParseInt(fs[0]), ParseInt(fs[1]), ParseInt(fs[2]), dc.parse(fs[5]))
      case (Some(id), Some(customerId), Some(carId), Some(cost)) =>
        Booking(id, customerId, carId, fs[3], fs[4], cost, fs[6], if |fs| > 7 then fs[7] else "")
      case _ => DefaultBooking()
  }

  /** parseBookingFromLine as a function of the line. */
  function DecodeBooking(line: string, dc: DoubleCodec): Booking
  {
    BookingFromFields(Split(line, ','), dc)
  }

  /** No text field holds a comma or a line break. */
  predicate CleanFields(b: Booking)
  {
    Clean(b.startDate) && Clean(b.endDate) && Clean(b.status) && Clean(b.notes)
  }

  /** A booking whose text fields are clean and whose cost can be written and read back. */
  predicate Storable(b: Booking, dc: DoubleCodec)
  {
    CleanFields(b) && dc.Storable(b.totalCost)
  }

  /** What a stored booking reads back as: the same booking, with the cost it was
      printed as. */
  function Reread(b: Booking, dc: DoubleCodec): Booking
  {
    b.(totalCost := dc.Reread(b.totalCost))
  }

  /** No field of a storable booking holds a comma or a line break. */
  lemma BookingFieldsClean(b: Booking, dc: DoubleCodec)
    requires Storable(b, dc)
    ensures FreeOf(BookingFields(b, dc), ',') && FreeOf(BookingFields(b, dc), '\n')
  {
    var fs := BookingFields(b, dc);
    forall k | 0 <= k < 8 ensures Clean(fs[k]) {
      if k == 0 {} else if k == 1 {} else if k == 2 {} else if k == 3 {}
      else if k == 4 {} else if k == 5 {} else if k == 6 {} else {}
    }
  }

  /** A written line contains no line break, so it stays one line of the file. */
  lemma BookingLineIsOneLine(b: Booking, dc: DoubleCodec)
    requires Storable(b, dc)
    ensures '\n' !in BookingToCsvLine(b, dc)
  {
    BookingFieldsClean(b, dc);
    JoinFreeOf(BookingFields(b, dc), ',', '\n');
  }

  /** parseBookingFromLine(bookingToCsvLine(b)) is b, except the cost, which is what
      its printed form reads back as. Empty notes leave a seven-field line, which
      reads back with empty notes. */
  lemma BookingLineRoundTrip(b: Booking, dc: DoubleCodec)
    requires Storable(b, dc)
    ensures DecodeBooking(BookingToCsvLine(b, dc), dc) == Reread(b, dc)
  {
    var fs := BookingFields(b, dc);
    BookingFieldsClean(b, dc);
    SplitJoin(fs, ',');
    ParseIntToString(b.bookingId);
    ParseIntToString(b.customerId);
    ParseIntToString(b.carId);
    if b.notes == "" {
      assert Split(BookingToCsvLine(b, dc), ',') == fs[..7];
    } else {
      assert Split(BookingToCsvLine(b, dc), ',') == fs;
    }
  }

  /** Notes are not quoted: notes holding a comma are cut at it when read back. */
  lemma NotesCutAtComma(b: Booking, before: string, after: string, dc: DoubleCodec)
    requires Storable(b.(notes := before), dc) && Clean(after)
    requires b.notes == before + [','] + after
    ensures DecodeBooking(BookingToCsvLine(b, dc), dc) == Reread(b, dc).(notes := before)
  {
    var fs := BookingFields(b, dc);
    var cut := fs[..7] + [before, after];
    assert fs == fs[..7] + [before + [','] + after];
    JoinSplitsLast(fs[..7], before, after, ',');
    assert BookingToCsvLine(b, dc) == Join(cut, ',');
    BookingFieldsClean(b.(notes := before), dc);
    assert BookingFields(b.(notes := before), dc) == fs[..7] + [before];
    assert FreeOf(cut, ',') by {
      forall k | 0 <= k < |cut| ensures ',' !in cut[k] {
        if k < 8 {
          assert cut[k] == BookingFields(b.(notes := before), dc)[k];
        }
      }
    }
    SplitJoin(cut, ',');
    ParseIntToString(b.bookingId);
    ParseIntToString(b.customerId);
    ParseIntToString(b.carId);
    if after == "" {
      assert Split(BookingToCsvLine(b, dc), ',') == cut[..8];
    } else {
      assert Split(BookingToCsvLine(b, dc), ',') == cut;
    }
  }

  // ---------------------------------------------------------------------------
  // The store, as functions of the file

  /** loadBookings: nothing for a missing file; otherwise every line after the
      header that is not blank and decodes to a positive id, in file order. */
  function LoadedBookings(f: FileState, dc: DoubleCodec): (bookings: seq<Booking>)
    ensures forall k | 0 <= k < |bookings| :: bookings[k].bookingId > 0
  {
    KeepDecoded(DataLines(f), DecodeBooking, dc, IdOf)
  }

  /** nextId after a load: one more than the largest loaded id (1 when there is
      none), unchanged when the file is missing. */
  function NextIdAfterLoad(f: FileState, nextId: int, dc: DoubleCodec): (n: int)
    ensures f.Present? ==> n >= 1 && forall k | 0 <= k < |LoadedBookings(f, dc)| :: LoadedBookings(f, dc)[k].bookingId < n
    ensures f.Present? ==> n == 1 || exists k | 0 <= k < |LoadedBookings(f, dc)| :: LoadedBookings(f, dc)[k].bookingId == n - 1
    ensures f.Absent? ==> n == nextId
  {
    if f.Present? then Records.MaxKey(LoadedBookings(f, dc), IdOf) + 1 else nextId
  }

  /** The header line saveBookings writes. */
  lemma HeaderIsOneLine()
    ensures '\n' !in Header
  {
    assert '\n' !in "ID,CustomerID,CarID," && '\n' !in "StartDate,EndDate,";
    assert '\n' !in "TotalCost,Status,Notes";
  }

  /** saveBookings: the header and one line per booking. */
  function RenderBookings(header: string, bookings: seq<Booking>, dc: DoubleCodec): string
  {
    Render(header, Records.Map(bookings, BookingToCsvLine, dc))
  }

  /** Loading what was saved gives the saved bookings back (costs as reread). */
  lemma LoadRendered(header: string, bookings: seq<Booking>, dc: DoubleCodec)
    requires '\n' !in header
    requires forall k | 0 <= k < |bookings| :: bookings[k].bookingId > 0 && Storable(bookings[k], dc)
    ensures LoadedBookings(Present(RenderBookings(header, bookings, dc)), dc) == Records.Map(bookings, Reread, dc)
  {
    var lines := Records.Map(bookings, BookingToCsvLine, dc);
    forall k | 0 <= k < |bookings|
      ensures '\n' !in lines[k] && DecodeBooking(BookingToCsvLine(bookings[k], dc), dc) == Reread(bookings[k], dc)
    {
      BookingLineIsOneLine(bookings[k], dc);
      BookingLineRoundTrip(bookings[k], dc);
    }
    ReadRendered(header, lines);
    KeepDecodedOfEncoded(bookings, Records.Map(bookings, Reread, dc), BookingToCsvLine, DecodeBooking, dc, IdOf);
  }

  /** What one successful addBooking does to (file, nextId): load, give the booking
      the next id, append it, save. */
  function AddStep(header: string, f: FileState, nextId: int, b: Booking, dc: DoubleCodec): (r: (FileState, int))
    ensures r.0.Present? && r.1 == NextIdAfterLoad(f, nextId, dc) + 1
  {
    var id := NextIdAfterLoad(f, nextId, dc);
    (Present(RenderBookings(header, LoadedBookings(f, dc) + [b.(bookingId := id)], dc)), id + 1)
  }

  /** The first loaded booking with the id, or the default booking (id 0). */
  function BookingWithId(bookings: seq<Booking>, id: int): (b: Booking)
    ensures (forall k | 0 <= k < |bookings| :: bookings[k].bookingId != id) ==> b == DefaultBooking()
    ensures (exists k | 0 <= k < |bookings| :: bookings[k].bookingId == id) ==>
              exists k | 0 <= k < |bookings| ::
                b == bookings[k] && b.bookingId == id && forall j | 0 <= j < k :: bookings[j].bookingId != id
  {
    var r := Records.FirstIndex(bookings, HasId, id);
    if r < 0 then DefaultBooking() else bookings[r]
  }

  /** getBookingsByCustomerId and getBookingsByCarId keep exactly the bookings of
      that customer or car, in load order; every booking is in the one list of its
      own customer. */
  lemma ByCustomerAndCarAreOrderedFilters(bookings: seq<Booking>, customerId: int, carId: int)
    ensures Records.IsSubsequence(Records.Filter(bookings, HasCustomer, customerId), bookings)
    ensures forall b :: b in Records.Filter(bookings, HasCustomer, customerId) <==>
                        b in bookings && b.customerId == customerId
    ensures Records.IsSubsequence(Records.Filter(bookings, HasCar, carId), bookings)
    ensures forall b :: b in Records.Filter(bookings, HasCar, carId) <==> b in bookings && b.carId == carId
  {
    Records.SelectSpec(bookings, HasCustomer, customerId, true);
    Records.SelectSpec(bookings, HasCar, carId, true);
  }

  /** deleteBooking's list: no booking with the id is left, every other one is, in
      order, and the list is unchanged exactly when none had the id. */
  lemma DeleteRemovesEveryMatch(bookings: seq<Booking>, id: int)
    ensures Records.IsSubsequence(Records.Reject(bookings, HasId, id), bookings)
    ensures forall b :: b in Records.Reject(bookings, HasId, id) <==> b in bookings && b.bookingId != id
    ensures |Records.Reject(bookings, HasId, id)| == |bookings| <==>
              forall k | 0 <= k < |bookings| :: bookings[k].bookingId != id
  {
    var kept := Records.Reject(bookings, HasId, id);
    Records.SelectSpec(bookings, HasId, id, false);
    forall b ensures b in kept <==> b in bookings && b.bookingId != id {
      assert HasId(b, id) == (b.bookingId == id);
    }
    Records.SelectAll(bookings, HasId, id, false);
    assert (forall k | 0 <= k < |bookings| :: HasId(bookings[k], id) == false) <==>
           (forall k | 0 <= k < |bookings| :: bookings[k].bookingId != id);
  }

  // ---------------------------------------------------------------------------
  // Consecutive additions

  /** One successful add, seen through the next load: the bookings loaded before,
      then the new booking with the next id, every cost as reread. */
  lemma AddStepLoads(header: string, f: FileState, n: int, b: Booking, dc: DoubleCodec)
    requires '\n' !in header && n >= 1
    requires forall k | 0 <= k < |LoadedBookings(f, dc)| :: Storable(LoadedBookings(f, dc)[k], dc)
    requires Storable(b, dc)
    ensures LoadedBookings(AddStep(header, f, n, b, dc).0, dc)
            == Records.Map(LoadedBookings(f, dc) + [b.(bookingId := NextIdAfterLoad(f, n, dc))], Reread, dc)
  {
    var loaded := LoadedBookings(f, dc);
    var next := loaded + [b.(bookingId := NextIdAfterLoad(f, n, dc))];
    forall k | 0 <= k < |next| ensures next[k].bookingId > 0 && Storable(next[k], dc) {
      if k < |loaded| {
        assert next[k] == loaded[k];
      }
    }
    LoadRendered(header, next, dc);
  }

  /** The loaded bookings are bs in order, with the ids 1..|bs|, each as added but
      for the cost, and each still storable. */
  ghost predicate AddedInOrder(loaded: seq<Booking>, bs: seq<Booking>, dc: DoubleCodec)
  {
    && |loaded| == |bs|
    && forall k | 0 <= k < |bs| ::
         loaded[k] == bs[k].(bookingId := k + 1, totalCost := loaded[k].totalCost) && Storable(loaded[k], dc)
  }

  /** Bookings numbered 1..N have N as their largest id. */
  lemma LargestAddedId(loaded: seq<Booking>, bs: seq<Booking>, dc: DoubleCodec)
    requires AddedInOrder(loaded, bs, dc) && bs != []
    ensures Records.MaxKey(loaded, IdOf) == |bs|
  {
    assert IdOf(loaded[|bs| - 1]) == |bs|;
    forall k | 0 <= k < |loaded| ensures IdOf(loaded[k]) <= |bs| {
      assert loaded[k].bookingId == k + 1;
    }
  }

  /** Appending booking b with the next id, and rereading every cost, keeps the picture. */
  lemma AddOneMore(loaded: seq<Booking>, bs: seq<Booking>, b: Booking, dc: DoubleCodec)
    requires dc.RereadStable()
    requires AddedInOrder(loaded, bs, dc) && Storable(b, dc)
    ensures AddedInOrder(Records.Map(loaded + [b.(bookingId := |bs| + 1)], Reread, dc), bs + [b], dc)
  {
    var next := loaded + [b.(bookingId := |bs| + 1)];
    var reloaded := Records.Map(next, Reread, dc);
    var all := bs + [b];
    forall k | 0 <= k < |all|
      ensures reloaded[k] == all[k].(bookingId := k + 1, totalCost := reloaded[k].totalCost)
      ensures Storable(reloaded[k], dc)
    {
      assert reloaded[k] == Reread(next[k], dc);
      if k < |bs| {
        assert all[k] == bs[k] && next[k] == loaded[k];
      } else {
        assert all[k] == b && next[k] == b.(bookingId := |bs| + 1);
      }
      assert dc.Storable(next[k].totalCost);
    }
  }

  /** The store after adding bs from scratch: nextId is |bs| + 1, a data file exists
      once a booking was added, and the loaded bookings are as AddedInOrder says. */
  ghost predicate HoldsAdded(f: FileState, n: int, bs: seq<Booking>, dc: DoubleCodec)
  {
    n == |bs| + 1 && (f == Absent <==> bs == []) && AddedInOrder(LoadedBookings(f, dc), bs, dc)
  }

  /** One more successful add: nextId moves on by one and the loaded bookings gain
      b, with the next id, at the end. */
  lemma AddKeepsOrder(header: string, f: FileState, n: int, bs: seq<Booking>, b: Booking, dc: DoubleCodec)
    requires '\n' !in header && dc.RereadStable() && Storable(b, dc)
    requires HoldsAdded(f, n, bs, dc)
    ensures HoldsAdded(AddStep(header, f, n, b, dc).0, AddStep(header, f, n, b, dc).1, bs + [b], dc)
  {
    var loaded := LoadedBookings(f, dc);
    assert NextIdAfterLoad(f, n, dc) == |bs| + 1 by {
      if bs != [] {
        LargestAddedId(loaded, bs, dc);
      }
    }
    AddStepLoads(header, f, n, b, dc);
    AddOneMore(loaded, bs, b, dc);
  }

  /** states is a run of successful adds of bs, one after the other: each state is
      what adding the next booking makes of the one before. */
  ghost predicate AddRun(header: string, states: seq<(FileState, int)>, bs: seq<Booking>, dc: DoubleCodec)
  {
    && |states| == |bs| + 1
    && (bs != [] ==>
          var m := |bs| - 1;
          && AddRun(header, states[..m + 1], bs[..m], dc)
          && states[m + 1] == AddStep(header, states[m].0, states[m].1, bs[m], dc))
  }

  /** Starting from a store without a data file and nextId 1, adding N bookings
      gives them the ids 1..N in order, keeps all their other fields but the cost,
      and leaves nextId at N + 1. */
  lemma {:induction false} SequentialIds(header: string, states: seq<(FileState, int)>, bs: seq<Booking>, dc: DoubleCodec)
    requires '\n' !in header && dc.RereadStable()
    requires forall k | 0 <= k < |bs| :: Storable(bs[k], dc)
    requires AddRun(header, states, bs, dc) && states[0] == (Absent, 1)
    ensures HoldsAdded(states[|bs|].0, states[|bs|].1, bs, dc)
    decreases |bs|
  {
    if bs != [] {
      var m := |bs| - 1;
      var before := states[..m + 1];
      Records.SplitLast(bs);
      SequentialIds(header, before, bs[..m], dc);
      AddKeepsOrder(header, states[m].0, states[m].1, bs[..m], bs[m], dc);
      assert states[|bs|] == AddStep(header, states[m].0, states[m].1, bs[m], dc);
    }
  }

  // ---------------------------------------------------------------------------
  // The service

  class BookingService {
    /** The data file's contents. */
    var file: FileState
    var nextId: int
    /** Whether the data file can be opened for writing. */
    const writable: bool
    /** The header line saves write. */
    const header: string
    /** How `double` costs are printed and read. */
    const doubles: DoubleCodec

    /** BookingService(): nextId 1, then a load to pick up the ids already used. */
    constructor (contents: FileState, writable: bool, doubles: DoubleCodec)
      ensures file == contents && this.writable == writable && this.doubles == doubles && header == Header
      ensures nextId == NextIdAfterLoad(contents, 1, doubles)
    {
      file := contents;
      this.writable := writable;
      this.doubles := doubles;
      header := Header;
      nextId := 1;
      new;
      var _ := LoadBookings();
    }

    /** parseBookingFromLine: split on commas, then convert the fields. */
    method ParseBookingFromLine(line: string) returns (b: Booking)
      ensures b == DecodeBooking(line, doubles)
    {
      var fields := SplitOn(line, ',');
      b := BookingFromFields(fields, doubles);
    }

    /** updateNextId: one more than the largest id in bookings (1 for none). */
    method UpdateNextId(bookings: seq<Booking>)
      modifies this
      ensures nextId == Records.MaxKey(bookings, IdOf) + 1
      ensures file == old(file)
    {
      var maxId := 0;
      for i := 0 to |bookings|
        invariant unchanged(this)
        invariant maxId == Records.MaxKey(bookings[..i], IdOf)
      {
        Records.PrefixSnoc(bookings, i);
        if bookings[i].bookingId > maxId {
          maxId := bookings[i].bookingId;
        }
      }
      assert bookings[..|bookings|] == bookings;
      nextId := maxId + 1;
    }

    /** loadBookings: read the file line by line, skip the first line and blank
      lines, keep the bookings with a positive id; then recompute nextId. */
    method LoadBookings() returns (bookings: seq<Booking>)
      modifies this
      ensures bookings == LoadedBookings(file, doubles)
      ensures file == old(file)
      ensures nextId == NextIdAfterLoad(old(file), old(nextId), doubles)
    {
      bookings := [];
      if file.Absent? {
        return;
      }
      var lines := SplitOn(file.text, '\n');
      var firstLine := true;
      for i := 0 to |lines|
        invariant unchanged(this)
        invariant firstLine == (i == 0)
        invariant i > 0 ==> bookings == KeepDecoded(lines[1..i], DecodeBooking, doubles, IdOf)
        invariant i == 0 ==> bookings == []
      {
        if firstLine {
          firstLine := false;
          assert lines[1..1] == [];
        } else {
          Records.SliceSnoc(lines, 1, i);
          KeepDecodedSnoc(lines[1..i], lines[i], DecodeBooking, doubles, IdOf);
          var line := lines[i];
          if line != "" {
            var b := ParseBookingFromLine(line);
            if b.bookingId > 0 {
              bookings := bookings + [b];
            }
          }
        }
      }
      assert bookings == KeepDecoded(DataLines(file), DecodeBooking, doubles, IdOf) by {
        if lines != [] {
          assert lines[1..|lines|] == DataLines(file);
        }
      }
      UpdateNextId(bookings);
    }

    /** saveBookings: false when the file cannot be opened; otherwise it is
      rewritten. */
    method SaveBookings(bookings: seq<Booking>) returns (ok: bool)
      modifies this
      ensures ok == writable
      ensures file == (if writable then Present(RenderBookings(header, bookings, doubles)) else old(file))
      ensures nextId == old(nextId)
    {
      if !writable {
        return false;
      }
      var text := header + "\n";
      ghost var lines: seq<string> := [];
      RenderHeaderOnly(header);
      for i := 0 to |bookings|
        invariant unchanged(this)
        invariant lines == Records.Map(bookings[..i], BookingToCsvLine, doubles)
        invariant text == Render(header, lines)
      {
        var line := BookingToCsvLine(bookings[i], doubles);
        Records.MapPrefixSnoc(bookings, BookingToCsvLine, doubles, i);
        RenderSnoc(header, lines, line);
        lines := lines + [line];
        text := text + line + "\n";
      }
      assert bookings[..|bookings|] == bookings;
      file := Present(text);
      return true;
    }

    /** addBooking: the booking, with the next id, goes at the end; nextId moves on
      even when the save fails. */
    method AddBooking(booking: Booking) returns (ok: bool)
      modifies this
      ensures ok == writable
      ensures nextId == AddStep(header, old(file), old(nextId), booking, doubles).1
      ensures file == (if writable then AddStep(header, old(file), old(nextId), booking, doubles).0 else old(file))
    {
      var bookings := LoadBookings();
      var newBooking := booking.(bookingId := nextId);
      bookings := bookings + [newBooking];
      nextId := nextId + 1;
      ok := SaveBookings(bookings);
    }

    /** getAllBookings. */
    method GetAllBookings() returns (bookings: seq<Booking>)
      modifies this
      ensures bookings == LoadedBookings(old(file), doubles) && file == old(file)
      ensures nextId == NextIdAfterLoad(old(file), old(nextId), doubles)
    {
      bookings := LoadBookings();
    }

    /** getBookingById: the first booking with the id, or the default booking. */
    method GetBookingById(bookingId: int) returns (b: Booking)
      modifies this
      ensures b == BookingWithId(LoadedBookings(old(file), doubles), bookingId)
      ensures file == old(file) && nextId == NextIdAfterLoad(old(file), old(nextId), doubles)
    {
      var bookings := LoadBookings();
      var i := Records.FindFirst(bookings, HasId, bookingId);
      if i >= 0 {
        return bookings[i];
      }
      return DefaultBooking();
    }

    /** getBookingsByCustomerId: the customer's bookings, in load order. */
    method GetBookingsByCustomerId(customerId: int) returns (results: seq<Booking>)
      modifies this
      ensures results == Records.Filter(LoadedBookings(old(file), doubles), HasCustomer, customerId)
      ensures file == old(file) && nextId == NextIdAfterLoad(old(file), old(nextId), doubles)
    {
      var bookings := LoadBookings();
      label loaded:
      results := [];
      for i := 0 to |bookings|
        invariant unchanged@loaded(this)
        invariant results == Records.Filter(bookings[..i], HasCustomer, customerId)
      {
        Records.PrefixSnoc(bookings, i);
        if bookings[i].customerId == customerId {
          results := results + [bookings[i]];
        }
      }
      assert bookings[..|bookings|] == bookings;
    }

    /** getBookingsByCarId: the car's bookings, in load order. */
    method GetBookingsByCarId(carId: int) returns (results: seq<Booking>)
      modifies this
      ensures results == Records.Filter(LoadedBookings(old(file), doubles), HasCar, carId)
      ensures file == old(file) && nextId == NextIdAfterLoad(old(file), old(nextId), doubles)
    {
      var bookings := LoadBookings();
      label loaded:
      results := [];
      for i := 0 to |bookings|
        invariant unchanged@loaded(this)
        invariant results == Records.Filter(bookings[..i], HasCar, carId)
      {
        Records.PrefixSnoc(bookings, i);
        if bookings[i].carId == carId {
          results := results + [bookings[i]];
        }
      }
      assert bookings[..|bookings|] == bookings;
    }

    /** updateBooking: replace the first booking with the same id and save; false,
      and no write, when there is none. */
    method UpdateBooking(booking: Booking) returns (ok: bool)
      modifies this
      ensures var loaded := LoadedBookings(old(file), doubles);
              var found := Records.FirstIndex(loaded, HasId, booking.bookingId) >= 0;
              && ok == (found && writable)
              && file == (if found && writable
                          then Present(RenderBookings(header, Records.ReplaceFirst(loaded, HasId, booking.bookingId, booking), doubles))
                          else old(file))
      ensures nextId == NextIdAfterLoad(old(file), old(nextId), doubles)
    {
      var bookings := LoadBookings();
      var i := Records.FindFirst(bookings, HasId, booking.bookingId);
      if i >= 0 {
        ok := SaveBookings(bookings[i := booking]);
      } else {
        ok := false;
      }
    }

    /** deleteBooking: remove_if every booking with the id, erase the tail and save;
      false, and no write, when none had it. */
    method DeleteBooking(bookingId: int) returns (ok: bool)
      modifies this
      ensures var loaded := LoadedBookings(old(file), doubles);
              var kept := Records.Reject(loaded, HasId, bookingId);
              && ok == (|kept| < |loaded| && writable)
              && file == (if |kept| < |loaded| && writable then Present(RenderBookings(header, kept, doubles)) else old(file))
      ensures nextId == NextIdAfterLoad(old(file), old(nextId), doubles)
    {
      var bookings := LoadBookings();
      var arr := new Booking[|bookings|](k requires 0 <= k < |bookings| => bookings[k]);
      assert arr[..] == bookings;
      var end := Records.RemoveIf(arr, HasId, bookingId);
      if end != arr.Length {
        ok := SaveBookings(arr[..end]);
      } else {
        ok := false;
      }
    }
  }
}
