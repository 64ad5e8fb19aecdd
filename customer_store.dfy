/** CustomerService (services/CustomerService.cpp): the customer records kept in a
    CSV file, handled like the cars: every operation reloads the whole file and a
    change rewrites all of it. Every field of a customer is text but the id, so a
    saved customer reads back exactly -- unless its licence expiry is empty. */
module CustomerStore {
  import opened Text
  import opened Customers
  import opened Storage
  import Records

  const Header := "ID,FirstName,LastName," + "Email,Phone,Address," + "LicenseNumber,LicenseExpiry"

  function IdOf(c: Customer): int { c.customerId }
  predicate HasId(c: Customer, id: int) { c.customerId == id }

  // ---------------------------------------------------------------------------
  // Line codec. The customer codec needs no configuration; `u` only fills the
  // slot the shared load filter has for one.

  /** The eight fields customerToCsvLine writes, in header order. */
  function CustomerFields(c: Customer): (fs: seq<string>)
    ensures |fs| == 8 && fs[7] == c.licenseExpiry
  {
    [IntToString(c.customerId), c.firstName, c.lastName, c.email, c.phone, c.address,
     c.licenseNumber, c.licenseExpiry]
  }

  /** customerToCsvLine: the fields joined by commas. */
  function CustomerToCsvLine(c: Customer, u: ()): (line: string)
    ensures line != "" && ',' in line
  {
    JoinContainsDelimiter(CustomerFields(c), ',');
    Join(CustomerFields(c), ',')
  }

  /** The body of parseCustomerFromLine after splitting: eight or more fields and a
      readable id; fewer fields leave the default customer, and an unreadable id
      makes stoi throw, which also gives the default customer. */
  function CustomerFromFields(fs: seq<string>): (c: Customer)
    ensures |fs| < 8 || ParseInt(fs[0]).None? ==> c == DefaultCustomer()
    ensures |fs| >= 8 && ParseInt(fs[0]).Some? ==>
              && c.customerId == ParseInt(fs[0]).value
              && c.firstName == fs[1] && c.lastName == fs[2] && c.email == fs[3]
              && c.phone == fs[4] && c.address == fs[5] && c.licenseNumber == fs[6]
              && c.licenseExpiry == fs[7]
  {
    if |fs| < 8 then DefaultCustomer()
    else
      match ParseInt(fs[0])
      case Some(id) => Customer(id, fs[1], fs[2], fs[3], fs[4], fs[5], fs[6], fs[7])
      case None => DefaultCustomer()
  }

  /** parseCustomerFromLine as a function of the line. */
  function DecodeCustomer(line: string, u: ()): Customer
  {
    CustomerFromFields(Split(line, ','))
  }

  /** No text field holds a comma or a line break. */
  predicate CleanFields(c: Customer)
  {
    && Clean(c.firstName) && Clean(c.lastName) && Clean(c.email) && Clean(c.phone)
    && Clean(c.address) && Clean(c.licenseNumber) && Clean(c.licenseExpiry)
  }

  /** A customer that survives a save and a load: clean fields and an expiry. */
  predicate Storable(c: Customer)
  {
    CleanFields(c) && c.licenseExpiry != ""
  }

  lemma CustomerFieldsClean(c: Customer)
    requires CleanFields(c)
    ensures FreeOf(CustomerFields(c), ',') && FreeOf(CustomerFields(c), '\n')
  {
    var fs := CustomerFields(c);
    forall k | 0 <= k < 8 ensures Clean(fs[k]) {
      if k == 0 {} else if k == 1 {} else if k == 2 {} else if k == 3 {}
      else if k == 4 {} else if k == 5 {} else if k == 6 {} else {}
    }
  }

  /** A written line contains no line break, so it stays one line of the file. */
  lemma CustomerLineIsOneLine(c: Customer)
    requires CleanFields(c)
    ensures '\n' !in CustomerToCsvLine(c, ())
  {
    CustomerFieldsClean(c);
    JoinFreeOf(CustomerFields(c), ',', '\n');
  }

  /** parseCustomerFromLine(customerToCsvLine(c)) is exactly c. */
  lemma CustomerLineRoundTrip(c: Customer)
    requires Storable(c)
    ensures DecodeCustomer(CustomerToCsvLine(c, ()), ()) == c
  {
    CustomerFieldsClean(c);
    SplitJoin(CustomerFields(c), ',');
    ParseIntToString(c.customerId);
  }

  /** An empty licence expiry leaves a trailing comma, which getline does not turn
      into a field: the line has seven fields and reads as the default customer. */
  lemma EmptyExpiryGivesDefault(c: Customer)
    requires CleanFields(c) && c.licenseExpiry == ""
    ensures DecodeCustomer(CustomerToCsvLine(c, ()), ()) == DefaultCustomer()
  {
    CustomerFieldsClean(c);
    SplitJoin(CustomerFields(c), ',');
  }

  // ---------------------------------------------------------------------------
  // The store, as functions of the file

  /** loadCustomers: nothing for a missing file; otherwise every line after the
      header that is not blank and decodes to a positive id, in file order. */
  function LoadedCustomers(f: FileState): (customers: seq<Customer>)
    ensures forall k | 0 <= k < |customers| :: customers[k].customerId > 0
  {
    KeepDecoded(DataLines(f), DecodeCustomer, (), IdOf)
  }

  /** nextId after a load: one more than the largest loaded id (1 when there is
      none), unchanged when the file is missing. */
  function NextIdAfterLoad(f: FileState, nextId: int): (n: int)
    ensures f.Present? ==> n >= 1 && forall k | 0 <= k < |LoadedCustomers(f)| :: LoadedCustomers(f)[k].customerId < n
    ensures f.Present? ==> n == 1 || exists k | 0 <= k < |LoadedCustomers(f)| :: LoadedCustomers(f)[k].customerId == n - 1
    ensures f.Absent? ==> n == nextId
  {
    if f.Present? then Records.MaxKey(LoadedCustomers(f), IdOf) + 1 else nextId
  }

  /** The header line saveCustomers writes. */
  lemma HeaderIsOneLine()
    ensures '\n' !in Header
  {
    assert '\n' !in "ID,FirstName,LastName," && '\n' !in "Email,Phone,Address,";
    assert '\n' !in "LicenseNumber,LicenseExpiry";
  }

  /** saveCustomers: the header and one line per customer. */
  function RenderCustomers(header: string, customers: seq<Customer>): string
  {
    Render(header, Records.Map(customers, CustomerToCsvLine, ()))
  }

  /** Loading what was saved gives exactly the saved customers back. */
  lemma LoadRendered(header: string, customers: seq<Customer>)
    requires '\n' !in header
    requires forall k | 0 <= k < |customers| :: customers[k].customerId > 0 && Storable(customers[k])
    ensures LoadedCustomers(Present(RenderCustomers(header, customers))) == customers
  {
    var lines := Records.Map(customers, CustomerToCsvLine, ());
    forall k | 0 <= k < |customers|
      ensures '\n' !in lines[k] && DecodeCustomer(CustomerToCsvLine(customers[k], ()), ()) == customers[k]
    {
      CustomerLineIsOneLine(customers[k]);
      CustomerLineRoundTrip(customers[k]);
    }
    ReadRendered(header, lines);
    KeepDecodedOfEncoded(customers, customers, CustomerToCsvLine, DecodeCustomer, (), IdOf);
  }

  /** A customer saved without a licence expiry is gone at the next load. */
  lemma SavedWithoutExpiryIsLost(header: string, c: Customer)
    requires '\n' !in header && CleanFields(c) && c.licenseExpiry == ""
    ensures LoadedCustomers(Present(RenderCustomers(header, [c]))) == []
  {
    var line := CustomerToCsvLine(c, ());
    var lines := Records.Map([c], CustomerToCsvLine, ());
    assert lines == [line];
    CustomerLineIsOneLine(c);
    ReadRendered(header, lines);
    EmptyExpiryGivesDefault(c);
    KeepDecodedSnoc([], line, DecodeCustomer, (), IdOf);
    assert [] + [line] == lines;
  }

  /** What one successful addCustomer does to (file, nextId): load, give the
      customer the next id, append it, save. */
  function AddStep(header: string, f: FileState, nextId: int, c: Customer): (r: (FileState, int))
    ensures r.0.Present? && r.1 == NextIdAfterLoad(f, nextId) + 1
  {
    var id := NextIdAfterLoad(f, nextId);
    (Present(RenderCustomers(header, LoadedCustomers(f) + [c.(customerId := id)])), id + 1)
  }

  /** The first loaded customer with the id, or the default customer (id 0). */
  function CustomerWithId(customers: seq<Customer>, id: int): (c: Customer)
    ensures (forall k | 0 <= k < |customers| :: customers[k].customerId != id) ==> c == DefaultCustomer()
    ensures (exists k | 0 <= k < |customers| :: customers[k].customerId == id) ==>
              exists k | 0 <= k < |customers| ::
                c == customers[k] && c.customerId == id && forall j | 0 <= j < k :: customers[j].customerId != id
  {
    var r := Records.FirstIndex(customers, HasId, id);
    if r < 0 then DefaultCustomer() else customers[r]
  }

  /** searchCustomers' test: the lower-cased term occurs in the lower-cased full
      name or e-mail. */
  predicate MatchesSearch(c: Customer, lowerTerm: string)
  {
    Contains(ToLower(FullName(c)), lowerTerm) || Contains(ToLower(c.email), lowerTerm)
  }

  /** The search results are the matching customers, in load order, and an empty
      term matches every customer. */
  lemma SearchIsOrderedFilter(customers: seq<Customer>, term: string)
    ensures Records.IsSubsequence(Records.Filter(customers, MatchesSearch, ToLower(term)), customers)
    ensures forall c :: c in Records.Filter(customers, MatchesSearch, ToLower(term)) <==>
                        c in customers && MatchesSearch(c, ToLower(term))
    ensures term == "" ==> Records.Filter(customers, MatchesSearch, ToLower(term)) == customers
  {
    Records.SelectSpec(customers, MatchesSearch, ToLower(term), true);
    if term == "" {
      forall k | 0 <= k < |customers| ensures MatchesSearch(customers[k], ToLower(term)) {
        ContainsEmpty(ToLower(FullName(customers[k])));
      }
      Records.SelectAll(customers, MatchesSearch, ToLower(term), true);
    }
  }

  /** deleteCustomer's list: no customer with the id is left, every other one is,
      in order, and the list is unchanged exactly when none had the id. */
  lemma DeleteRemovesEveryMatch(customers: seq<Customer>, id: int)
    ensures Records.IsSubsequence(Records.Reject(customers, HasId, id), customers)
    ensures forall c :: c in Records.Reject(customers, HasId, id) <==> c in customers && c.customerId != id
    ensures |Records.Reject(customers, HasId, id)| == |customers| <==>
              forall k | 0 <= k < |customers| :: customers[k].customerId != id
  {
    var kept := Records.Reject(customers, HasId, id);
    Records.SelectSpec(customers, HasId, id, false);
    forall c ensures c in kept <==> c in customers && c.customerId != id {
      assert HasId(c, id) == (c.customerId == id);
    }
    Records.SelectAll(customers, HasId, id, false);
    assert (forall k | 0 <= k < |customers| :: HasId(customers[k], id) == false) <==>
           (forall k | 0 <= k < |customers| :: customers[k].customerId != id);
  }

  // ---------------------------------------------------------------------------
  // Consecutive additions

  /** The loaded customers are cs in order, with the ids 1..|cs| and otherwise as
      added. */
  ghost predicate AddedInOrder(loaded: seq<Customer>, cs: seq<Customer>)
  {
    && |loaded| == |cs|
    && forall k | 0 <= k < |cs| :: loaded[k] == cs[k].(customerId := k + 1)
  }

  /** Customers numbered 1..N have N as their largest id. */
  lemma LargestAddedId(loaded: seq<Customer>, cs: seq<Customer>)
    requires AddedInOrder(loaded, cs) && cs != []
    ensures Records.MaxKey(loaded, IdOf) == |cs|
  {
    assert IdOf(loaded[|cs| - 1]) == |cs|;
    forall k | 0 <= k < |loaded| ensures IdOf(loaded[k]) <= |cs| {
      assert loaded[k].customerId == k + 1;
    }
  }

  /** The store after adding cs from scratch: nextId is |cs| + 1, a data file exists
      once a customer was added, and the loaded customers are as AddedInOrder says. */
  ghost predicate HoldsAdded(f: FileState, n: int, cs: seq<Customer>)
  {
    n == |cs| + 1 && (f == Absent <==> cs == []) && AddedInOrder(LoadedCustomers(f), cs)
  }

  /** A successful add, seen by the next load: what was loaded, then c with the
      next id. */
  lemma AddStepLoads(header: string, f: FileState, n: int, c: Customer)
    requires '\n' !in header && n >= 1
    requires forall k | 0 <= k < |LoadedCustomers(f)| :: Storable(LoadedCustomers(f)[k])
    requires Storable(c)
    ensures LoadedCustomers(AddStep(header, f, n, c).0) == LoadedCustomers(f) + [c.(customerId := NextIdAfterLoad(f, n))]
  {
    var loaded := LoadedCustomers(f);
    var next := loaded + [c.(customerId := NextIdAfterLoad(f, n))];
    forall k | 0 <= k < |next| ensures next[k].customerId > 0 && Storable(next[k]) {
      if k < |loaded| {
        assert next[k] == loaded[k];
      }
    }
    LoadRendered(header, next);
  }

  /** Appending c with the next id keeps the picture. */
  lemma AddOneMore(loaded: seq<Customer>, cs: seq<Customer>, c: Customer)
    requires AddedInOrder(loaded, cs)
    ensures AddedInOrder(loaded + [c.(customerId := |cs| + 1)], cs + [c])
  {
    var next := loaded + [c.(customerId := |cs| + 1)];
    var all := cs + [c];
    forall k | 0 <= k < |all| ensures next[k] == all[k].(customerId := k + 1) {
      if k < |cs| {
        assert all[k] == cs[k] && next[k] == loaded[k];
      }
    }
  }

  /** Added customers that were storable are storable as loaded. */
  lemma AddedStorable(loaded: seq<Customer>, cs: seq<Customer>)
    requires AddedInOrder(loaded, cs)
    requires forall k | 0 <= k < |cs| :: Storable(cs[k])
    ensures forall k | 0 <= k < |loaded| :: Storable(loaded[k])
  {
    forall k | 0 <= k < |loaded| ensures Storable(loaded[k]) {
      assert loaded[k] == cs[k].(customerId := k + 1);
    }
  }

  /** One more successful add: nextId moves on by one and the loaded customers gain
      c, with the next id, at the end. */
  lemma AddKeepsOrder(header: string, f: FileState, n: int, cs: seq<Customer>, c: Customer)
    requires '\n' !in header && Storable(c)
    requires forall k | 0 <= k < |cs| :: Storable(cs[k])
    requires HoldsAdded(f, n, cs)
    ensures HoldsAdded(AddStep(header, f, n, c).0, AddStep(header, f, n, c).1, cs + [c])
  {
    var loaded := LoadedCustomers(f);
    assert NextIdAfterLoad(f, n) == |cs| + 1 by {
      if cs != [] {
        LargestAddedId(loaded, cs);
      }
    }
    AddedStorable(loaded, cs);
    AddStepLoads(header, f, n, c);
    AddOneMore(loaded, cs, c);
  }

  /** states is a run of successful adds of cs, one after the other: each state is
      what adding the next customer makes of the one before. */
  ghost predicate AddRun(header: string, states: seq<(FileState, int)>, cs: seq<Customer>)
  {
    && |states| == |cs| + 1
    && (cs != [] ==>
          var m := |cs| - 1;
          && AddRun(header, states[..m + 1], cs[..m])
          && states[m + 1] == AddStep(header, states[m].0, states[m].1, cs[m]))
  }

  /** Starting from a store without a data file and nextId 1, adding N customers
      gives them the ids 1..N in order, keeps all their other fields, and leaves
      nextId at N + 1. */
  lemma {:induction false} SequentialIds(header: string, states: seq<(FileState, int)>, cs: seq<Customer>)
    requires '\n' !in header
    requires forall k | 0 <= k < |cs| :: Storable(cs[k])
    requires AddRun(header, states, cs) && states[0] == (Absent, 1)
    ensures HoldsAdded(states[|cs|].0, states[|cs|].1, cs)
    decreases |cs|
  {
    if cs != [] {
      var m := |cs| - 1;
      var before := states[..m + 1];
      Records.SplitLast(cs);
      SequentialIds(header, before, cs[..m]);
      AddKeepsOrder(header, states[m].0, states[m].1, cs[..m], cs[m]);
      assert states[|cs|] == AddStep(header, states[m].0, states[m].1, cs[m]);
    }
  }

  // ---------------------------------------------------------------------------
  // The service

  class CustomerService {
    /** The data file's contents. */
    var file: FileState
    var nextId: int
    /** Whether the data file can be opened for writing. */
    const writable: bool
    /** The header line saves write. */
    const header: string

    /** CustomerService(): nextId 1, then a load to pick up the ids already used. */
    constructor (contents: FileState, writable: bool)
      ensures file == contents && this.writable == writable && header == Header
      ensures nextId == NextIdAfterLoad(contents, 1)
    {
      file := contents;
      this.writable := writable;
      header := Header;
      nextId := 1;
      new;
      var _ := LoadCustomers();
    }

    /** parseCustomerFromLine: split on commas, then convert the fields. */
    method ParseCustomerFromLine(line: string) returns (c: Customer)
      ensures c == DecodeCustomer(line, ())
    {
      var fields := SplitOn(line, ',');
      c := CustomerFromFields(fields);
    }

    /** updateNextId: one more than the largest id in customers (1 for none). */
    method UpdateNextId(customers: seq<Customer>)
      modifies this
      ensures nextId == Records.MaxKey(customers, IdOf) + 1
      ensures file == old(file)
    {
      var maxId := 0;
      for i := 0 to |customers|
        invariant unchanged(this)
        invariant maxId == Records.MaxKey(customers[..i], IdOf)
      {
        Records.PrefixSnoc(customers, i);
        if customers[i].customerId > maxId {
          maxId := customers[i].customerId;
        }
      }
      assert customers[..|customers|] == customers;
      nextId := maxId + 1;
    }

    /** loadCustomers: read the file line by line, skip the first line and blank
      lines, keep the customers with a positive id; then recompute nextId. */
    method LoadCustomers() returns (customers: seq<Customer>)
      modifies this
      ensures customers == LoadedCustomers(file)
      ensures file == old(file)
      ensures nextId == NextIdAfterLoad(old(file), old(nextId))
    {
      customers := [];
      if file.Absent? {
        return;
      }
      var lines := SplitOn(file.text, '\n');
      var firstLine := true;
      for i := 0 to |lines|
        invariant unchanged(this)
        invariant firstLine == (i == 0)
        invariant i > 0 ==> customers == KeepDecoded(lines[1..i], DecodeCustomer, (), IdOf)
        invariant i == 0 ==> customers == []
      {
        if firstLine {
          firstLine := false;
          assert lines[1..1] == [];
        } else {
          Records.SliceSnoc(lines, 1, i);
          KeepDecodedSnoc(lines[1..i], lines[i], DecodeCustomer, (), IdOf);
          var line := lines[i];
          if line != "" {
            var c := ParseCustomerFromLine(line);
            if c.customerId > 0 {
              customers := customers + [c];
            }
          }
        }
      }
      assert customers == KeepDecoded(DataLines(file), DecodeCustomer, (), IdOf) by {
        if lines != [] {
          assert lines[1..|lines|] == DataLines(file);
        }
      }
      UpdateNextId(customers);
    }

    /** saveCustomers: false when the file cannot be opened; otherwise it is
      rewritten. */
    method SaveCustomers(customers: seq<Customer>) returns (ok: bool)
      modifies this
      ensures ok == writable
      ensures file == (if writable then Present(RenderCustomers(header, customers)) else old(file))
      ensures nextId == old(nextId)
    {
      if !writable {
        return false;
      }
      var text := header + "\n";
      ghost var lines: seq<string> := [];
      RenderHeaderOnly(header);
      for i := 0 to |customers|
        invariant unchanged(this)
        invariant lines == Records.Map(customers[..i], CustomerToCsvLine, ())
        invariant text == Render(header, lines)
      {
        var line := CustomerToCsvLine(customers[i], ());
        Records.MapPrefixSnoc(customers, CustomerToCsvLine, (), i);
        RenderSnoc(header, lines, line);
        lines := lines + [line];
        text := text + line + "\n";
      }
      assert customers[..|customers|] == customers;
      file := Present(text);
      return true;
    }

    /** addCustomer: the customer, with the next id, goes at the end; nextId moves
      on even when the save fails. */
    method AddCustomer(customer: Customer) returns (ok: bool)
      modifies this
      ensures ok == writable
      ensures nextId == AddStep(header, old(file), old(nextId), customer).1
      ensures file == (if writable then AddStep(header, old(file), old(nextId), customer).0 else old(file))
    {
      var customers := LoadCustomers();
      var newCustomer := customer.(customerId := nextId);
      customers := customers + [newCustomer];
      nextId := nextId + 1;
      ok := SaveCustomers(customers);
    }

    /** getAllCustomers. */
    method GetAllCustomers() returns (customers: seq<Customer>)
      modifies this
      ensures customers == LoadedCustomers(old(file)) && file == old(file)
      ensures nextId == NextIdAfterLoad(old(file), old(nextId))
    {
      customers := LoadCustomers();
    }

    /** getCustomerById: the first customer with the id, or the default customer. */
    method GetCustomerById(customerId: int) returns (c: Customer)
      modifies this
      ensures c == CustomerWithId(LoadedCustomers(old(file)), customerId)
      ensures file == old(file) && nextId == NextIdAfterLoad(old(file), old(nextId))
    {
      var customers := LoadCustomers();
      var i := Records.FindFirst(customers, HasId, customerId);
      if i >= 0 {
        return customers[i];
      }
      return DefaultCustomer();
    }

    /** searchCustomers: the customers whose full name or e-mail contains the term,
      ignoring case, in load order. */
    method SearchCustomers(searchTerm: string) returns (results: seq<Customer>)
      modifies this
      ensures results == Records.Filter(LoadedCustomers(old(file)), MatchesSearch, ToLower(searchTerm))
      ensures file == old(file) && nextId == NextIdAfterLoad(old(file), old(nextId))
    {
      var customers := LoadCustomers();
      label loaded:
      var lowerSearchTerm := ToLower(searchTerm);
      results := [];
      for i := 0 to |customers|
        invariant unchanged@loaded(this)
        invariant results == Records.Filter(customers[..i], MatchesSearch, lowerSearchTerm)
      {
        Records.PrefixSnoc(customers, i);
        var name := ToLower(FullName(customers[i]));
        var email := ToLower(customers[i].email);
        if Contains(name, lowerSearchTerm) || Contains(email, lowerSearchTerm) {
          results := results + [customers[i]];
        }
      }
      assert customers[..|customers|] == customers;
    }

    /** updateCustomer: replace the first customer with the same id and save; false,
      and no write, when there is none. */
    method UpdateCustomer(customer: Customer) returns (ok: bool)
      modifies this
      ensures var loaded := LoadedCustomers(old(file));
              var found := Records.FirstIndex(loaded, HasId, customer.customerId) >= 0;
              && ok == (found && writable)
              && file == (if found && writable
                          then Present(RenderCustomers(header, Records.ReplaceFirst(loaded, HasId, customer.customerId, customer)))
                          else old(file))
      ensures nextId == NextIdAfterLoad(old(file), old(nextId))
    {
      var customers := LoadCustomers();
      var i := Records.FindFirst(customers, HasId, customer.customerId);
      if i >= 0 {
        ok := SaveCustomers(customers[i := customer]);
      } else {
        ok := false;
      }
    }

    /** deleteCustomer: remove_if every customer with the id, erase the tail and
      save; false, and no write, when none had it. */
    method DeleteCustomer(customerId: int) returns (ok: bool)
      modifies this
      ensures var loaded := LoadedCustomers(old(file));
              var kept := Records.Reject(loaded, HasId, customerId);
              && ok == (|kept| < |loaded| && writable)
              && file == (if |kept| < |loaded| && writable then Present(RenderCustomers(header, kept)) else old(file))
      ensures nextId == NextIdAfterLoad(old(file), old(nextId))
    {
      var customers := LoadCustomers();
      var arr := new Customer[|customers|](k requires 0 <= k < |customers| => customers[k]);
      assert arr[..] == customers;
      var end := Records.RemoveIf(arr, HasId, customerId);
      if end != arr.Length {
        ok := SaveCustomers(arr[..end]);
      } else {
        ok := false;
      }
    }
  }
}
