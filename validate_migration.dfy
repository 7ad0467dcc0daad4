/** The post-migration check (`scripts/validate_migration.py`): compares the
    row counts of the database with counts taken from the legacy files, and
    looks for rows that break the data's constraints. A legacy file that
    does not exist is `None` and counts as empty. */
module MigrationValidation {
  import opened Wrappers
  import opened Text
  import Items
  import Customers
  import Rentals
  import Storage
  import Migration

  /** `count_legacy_file_lines`: the non-blank lines of the file, or 0 when
      it does not exist. */
  function CountLegacyFileLines(file: Option<seq<string>>): (n: nat)
    ensures file.None? ==> n == 0
    ensures file.Some? ==> n == Migration.NonBlank(file.value) && n <= |file.value|
  {
    match file
    case None => 0
    case Some(lines) => Migration.NonBlank(lines)
  }

  /** The phone numbers (first words) of the non-blank lines. */
  function LegacyPhones(lines: seq<string>): set<string>
  {
    if lines == [] then {} else LegacyPhones(lines[..|lines| - 1]) + FirstWord(lines[|lines| - 1])
  }

  /** The first word of a line, if it has one. */
  function FirstWord(line: string): set<string>
  {
    var parts := Migration.Words(line);
    if parts != [] then {parts[0]} else {}
  }

  /** A blank line has no first word; any other line's is the first of
      its words. */
  lemma FirstWordOf(line: string)
    ensures FirstWord(line) == {} <==> Strip(line) == []
    ensures Strip(line) != [] ==> FirstWord(line) == {Migration.Words(line)[0]}
  {
  }

  /** A phone is in the set exactly when some line starts with it. */
  lemma LegacyPhonesMembers(lines: seq<string>, phone: string)
    ensures phone in LegacyPhones(lines) <==> exists k :: 0 <= k < |lines| && phone in FirstWord(lines[k])
  {
    if phone in LegacyPhones(lines) {
      var k := LineOfPhone(lines, phone);
    }
    if exists k :: 0 <= k < |lines| && phone in FirstWord(lines[k]) {
      var k :| 0 <= k < |lines| && phone in FirstWord(lines[k]);
      PhoneOfLine(lines, phone, k);
    }
  }

  /** A phone in the set is the first word of some line. */
  lemma {:induction false} LineOfPhone(lines: seq<string>, phone: string) returns (k: nat)
    requires phone in LegacyPhones(lines)
    ensures k < |lines| && phone in FirstWord(lines[k])
  {
    var n := |lines| - 1;
    assert LegacyPhones(lines) == LegacyPhones(lines[..n]) + FirstWord(lines[n]);
    if phone in FirstWord(lines[n]) {
      return n;
    }
    k := LineOfPhone(lines[..n], phone);
    assert lines[..n][k] == lines[k];
  }

  /** The first word of every line is in the set. */
  lemma {:induction false} PhoneOfLine(lines: seq<string>, phone: string, k: nat)
    requires k < |lines| && phone in FirstWord(lines[k])
    ensures phone in LegacyPhones(lines)
  {
    var init := lines[..|lines| - 1];
    assert LegacyPhones(lines) == LegacyPhones(init) + FirstWord(lines[|lines| - 1]);
    if k < |init| {
      assert init[k] == lines[k];
      PhoneOfLine(init, phone, k);
    } else {
      assert k == |lines| - 1;
    }
  }

  /** The rental entries: every word of a line after its first. */
  function LegacyRentalEntries(lines: seq<string>): (n: nat)
  {
    if lines == [] then 0 else LegacyRentalEntries(lines[..|lines| - 1]) + LineEntries(lines[|lines| - 1])
  }

  /** The rental entries of one line: its words after the first. */
  function LineEntries(line: string): nat
  {
    var parts := Migration.Words(line);
    if |parts| > 1 then |parts| - 1 else 0
  }

  /** The counting loop of `count_legacy_file_lines`. */
  method CountLines(file: Option<seq<string>>) returns (count: nat)
    ensures count == CountLegacyFileLines(file)
  {
    count := 0;
    if file.None? {
      return;
    }
    var lines := file.value;
    for k := 0 to |lines|
      invariant count == Migration.NonBlank(lines[..k])
    {
      NonBlankStep(lines, k);
      var stripped := Strip(lines[k]);
      if stripped != [] {
        count := count + 1;
      }
    }
    assert lines[..|lines|] == lines;
  }

  lemma NonBlankStep(lines: seq<string>, k: nat)
    requires k < |lines|
    ensures Migration.NonBlank(lines[..k + 1]) == Migration.NonBlank(lines[..k]) + (if Strip(lines[k]) == [] then 0 else 1)
  {
    assert lines[..k + 1][..k] == lines[..k];
  }

  /** The set-building loop of `validate_customers`: after the header, the
      first word of every line that has one. */
  method CollectPhones(lines: seq<string>) returns (phones: set<string>)
    ensures phones == LegacyPhones(Migration.Body(lines))
  {
    var body := Migration.Body(lines);
    phones := {};
    for k := 0 to |body|
      invariant phones == LegacyPhones(body[..k])
    {
      assert body[..k + 1][..k] == body[..k];
      phones := phones + FirstWord(body[k]);
    }
    assert body[..|body|] == body;
  }

  /** The counting loop of `validate_rentals`. */
  method CountRentalEntries(lines: seq<string>) returns (count: nat)
    ensures count == LegacyRentalEntries(Migration.Body(lines))
  {
    var body := Migration.Body(lines);
    count := 0;
    for k := 0 to |body|
      invariant count == LegacyRentalEntries(body[..k])
    {
      EntriesStep(body, k);
      count := count + LineEntries(body[k]);
    }
    assert body[..|body|] == body;
  }

  lemma EntriesStep(lines: seq<string>, k: nat)
    requires k < |lines|
    ensures LegacyRentalEntries(lines[..k + 1]) == LegacyRentalEntries(lines[..k]) + LineEntries(lines[k])
  {
    assert lines[..k + 1][..k] == lines[..k];
  }

  /** `validate_employees`, `validate_items`, `validate_customers` and
      `validate_coupons`: the database has at least as many rows as the
      legacy count. */
  predicate CountValidated(dbCount: nat, legacyCount: nat)
  {
    dbCount >= legacyCount
  }

  /** `validate_rentals`: at least nine tenths of the legacy entries made it
      into the database. */
  predicate RentalsValidated(dbCount: nat, legacyEntries: nat)
  {
    dbCount as real >= legacyEntries as real * 0.9
  }

  /** What `validate_data_integrity` reports, with the number of rows. */
  datatype Issue = NegativePrices(count: nat) | NegativeQuantities(count: nat)

  function NegativePriceCount(items: seq<Items.Item>): (n: nat)
    ensures n <= |items|
    ensures n == 0 <==> forall k :: 0 <= k < |items| ==> items[k].price >= 0.0
  {
    if items == [] then 0
    else NegativePriceCount(items[..|items| - 1]) + (if items[|items| - 1].price < 0.0 then 1 else 0)
  }

  function NegativeQuantityCount(items: seq<Items.Item>): (n: nat)
    ensures n <= |items|
    ensures n == 0 <==> forall k :: 0 <= k < |items| ==> items[k].quantity >= 0
  {
    if items == [] then 0
    else NegativeQuantityCount(items[..|items| - 1]) + (if items[|items| - 1].quantity < 0 then 1 else 0)
  }

  /** `validate_data_integrity`: the issues found, each with its count. The
      checks for employees without a username, transactions without an
      employee and rentals without an item cannot fire here: those columns
      are never null in this model. */
  function IntegrityIssues(items: seq<Items.Item>): (issues: seq<Issue>)
    ensures issues == [] <==> forall k :: 0 <= k < |items| ==> Items.FieldsValid(items[k])
    ensures forall k :: 0 <= k < |issues| ==> issues[k].count > 0
  {
    (if NegativePriceCount(items) > 0 then [NegativePrices(NegativePriceCount(items))] else []) +
    (if NegativeQuantityCount(items) > 0 then [NegativeQuantities(NegativeQuantityCount(items))] else [])
  }

  /** The outcome of each validation, in the order `main` runs them. */
  datatype Report = Report(employees: bool, items: bool, customers: bool, rentals: bool, coupons: bool, integrity: bool)

  function Results(r: Report): seq<bool>
  {
    [r.employees, r.items, r.customers, r.rentals, r.coupons, r.integrity]
  }

  /** How many validations passed. */
  function Passed(results: seq<bool>): (n: nat)
    ensures n <= |results|
    ensures n == |results| <==> forall k :: 0 <= k < |results| ==> results[k]
  {
    if results == [] then 0
    else
      var n := Passed(results[..|results| - 1]) + (if results[|results| - 1] then 1 else 0);
      assert forall k :: 0 <= k < |results| - 1 ==> results[..|results| - 1][k] == results[k];
      n
  }

  /** `main`'s exit status: 0 when every validation passed, 1 otherwise. */
  function ExitCode(r: Report): (code: int)
    ensures code == 0 <==> r.employees && r.items && r.customers && r.rentals && r.coupons && r.integrity
    ensures code == 0 || code == 1
  {
    var results := Results(r);
    assert (forall k :: 0 <= k < |results| ==> results[k]) <==>
           r.employees && r.items && r.customers && r.rentals && r.coupons && r.integrity by {
      assert results[0] == r.employees && results[1] == r.items && results[2] == r.customers;
      assert results[3] == r.rentals && results[4] == r.coupons && results[5] == r.integrity;
    }
    if Passed(results) == |results| then 0 else 1
  }

  /** `main`'s summary: counts the validations that passed and exits with
      0 when all six did. */
  method Summarize(r: Report) returns (code: int)
    ensures code == ExitCode(r)
    ensures code == 0 <==> r.employees && r.items && r.customers && r.rentals && r.coupons && r.integrity
  {
    var results := Results(r);
    var passed := 0;
    for k := 0 to |results|
      invariant passed == Passed(results[..k])
    {
      assert results[..k + 1][..k] == results[..k];
      if results[k] {
        passed := passed + 1;
      }
    }
    assert results[..|results|] == results;
    code := if passed == |results| then 0 else 1;
  }

  /** Every validation `main` runs, on the database and the legacy files. */
  function Validate(db: Storage.Database, files: Migration.LegacyFiles): (r: Report)
    reads db
    ensures r.customers <==>
              |db.customers| >= (if files.users.Some? then |LegacyPhones(Migration.Body(files.users.value))| else 0)
    ensures r.integrity <==> forall k :: 0 <= k < |db.items| ==> Items.FieldsValid(db.items[k])
  {
    Report(
      CountValidated(|db.employees|, CountLegacyFileLines(files.employees)),
      CountValidated(|db.items|, CountLegacyFileLines(files.items)),
      CountValidated(|db.customers|, if files.users.Some? then |LegacyPhones(Migration.Body(files.users.value))| else 0),
      RentalsValidated(|db.rentals|, if files.users.Some? then LegacyRentalEntries(Migration.Body(files.users.value)) else 0),
      CountValidated(|db.coupons|, CountLegacyFileLines(files.coupons)),
      IntegrityIssues(db.items) == [])
  }

  // ---------------------------------------------------------------------
  // What the validation says about a migration

  /** The phones held by `customers`. */
  function PhoneSet(customers: seq<Customers.Customer>): set<string>
  {
    set k | 0 <= k < |customers| :: customers[k].phoneNumber
  }

  /** With unique phones there are as many phones as customers. */
  lemma {:induction false} PhoneSetSize(customers: seq<Customers.Customer>)
    requires Customers.UniquePhones(customers)
    ensures |PhoneSet(customers)| == |customers|
  {
    if customers != [] {
      var init := customers[..|customers| - 1];
      var last := customers[|customers| - 1];
      PhoneSetSize(init);
      assert PhoneSet(customers) == PhoneSet(init) + {last.phoneNumber} by {
        forall phone | phone in PhoneSet(customers) ensures phone in PhoneSet(init) + {last.phoneNumber} {
          var k :| 0 <= k < |customers| && customers[k].phoneNumber == phone;
          if k < |customers| - 1 {
            assert init[k] == customers[k];
          }
        }
        forall phone | phone in PhoneSet(init) ensures phone in PhoneSet(customers) {
          var k :| 0 <= k < |init| && init[k].phoneNumber == phone;
          assert customers[k] == init[k];
        }
      }
      assert last.phoneNumber !in PhoneSet(init);
    }
  }

  /** Fetching or creating a customer adds its phone, and only it. */
  lemma GetOrCreatePhones(customers: seq<Customers.Customer>, phone: string)
    ensures PhoneSet(Customers.GetOrCreate(customers, phone).0) == PhoneSet(customers) + {phone}
  {
    var after := Customers.GetOrCreate(customers, phone).0;
    if Customers.FindByPhone(customers, phone).Some? {
      var k := Customers.FindByPhone(customers, phone).value;
      assert customers[k].phoneNumber == phone;
    } else {
      forall q | q in PhoneSet(after) ensures q in PhoneSet(customers) + {phone} {
        var k :| 0 <= k < |after| && after[k].phoneNumber == q;
        if k < |customers| {
          assert after[k] == customers[k];
        }
      }
      forall q | q in PhoneSet(customers) ensures q in PhoneSet(after) {
        var k :| 0 <= k < |customers| && customers[k].phoneNumber == q;
        assert after[k] == customers[k];
      }
      assert after[|customers|].phoneNumber == phone;
    }
  }

  /** The customer migration stores exactly the phones already stored and
      those of the file, and keeps phones unique. */
  lemma {:induction false} MigratedPhones(p: Migration.People, items: seq<Items.Item>, lines: seq<string>, today: Rentals.Date,
                                          parseDate: string -> Option<Rentals.Date>)
    ensures PhoneSet(Migration.MigratedUsers(p, items, lines, today, parseDate).customers) ==
            PhoneSet(p.customers) + LegacyPhones(lines)
    ensures Customers.UniquePhones(p.customers) ==>
              Customers.UniquePhones(Migration.MigratedUsers(p, items, lines, today, parseDate).customers)
  {
    if lines == [] {
      assert LegacyPhones(lines) == {};
    } else {
      var init := lines[..|lines| - 1];
      var line := lines[|lines| - 1];
      MigratedPhones(p, items, init, today, parseDate);
      assert LegacyPhones(lines) == LegacyPhones(init) + FirstWord(line);
      var mid := Migration.MigratedUsers(p, items, init, today, parseDate);
      assert Migration.MigratedUsers(p, items, lines, today, parseDate) == Migration.UserStep(mid, items, line, today, parseDate);
      UserStepPhones(mid, items, line, today, parseDate);
    }
  }

  /** One line adds its first word, if any, to the stored phones and keeps
      them unique. */
  lemma UserStepPhones(p: Migration.People, items: seq<Items.Item>, line: string, today: Rentals.Date,
                       parseDate: string -> Option<Rentals.Date>)
    ensures PhoneSet(Migration.UserStep(p, items, line, today, parseDate).customers) == PhoneSet(p.customers) + FirstWord(line)
    ensures Customers.UniquePhones(p.customers) ==>
              Customers.UniquePhones(Migration.UserStep(p, items, line, today, parseDate).customers)
  {
    Migration.UserStepCustomers(p, items, line, today, parseDate);
    WordsPhones(p.customers, Migration.Words(line));
  }

  /** The customers after a line of `words`: its first word's phone joins
      the set, and unique phones stay unique. */
  lemma WordsPhones(cs: seq<Customers.Customer>, words: seq<string>)
    ensures var after := if words == [] then cs else Customers.GetOrCreate(cs, words[0]).0;
            PhoneSet(after) == PhoneSet(cs) + (if words != [] then {words[0]} else {}) &&
            (Customers.UniquePhones(cs) ==> Customers.UniquePhones(after))
  {
    if words != [] {
      GetOrCreatePhones(cs, words[0]);
    }
  }

  /** After the customer migration the customer validation passes, whatever
      the file holds, as long as the stored phones were unique. */
  lemma CustomersValidatedAfterMigration(p: Migration.People, items: seq<Items.Item>, lines: seq<string>,
                                         today: Rentals.Date, parseDate: string -> Option<Rentals.Date>)
    requires Customers.UniquePhones(p.customers)
    ensures CountValidated(|Migration.MigratedUsers(p, items, Migration.Body(lines), today, parseDate).customers|,
                           |LegacyPhones(Migration.Body(lines))|)
  {
    var after := Migration.MigratedUsers(p, items, Migration.Body(lines), today, parseDate).customers;
    MigratedPhones(p, items, Migration.Body(lines), today, parseDate);
    PhoneSetSize(after);
    var legacy := LegacyPhones(Migration.Body(lines));
    assert legacy <= PhoneSet(after);
    assert |PhoneSet(after)| == |PhoneSet(after) - legacy| + |legacy|;
  }

  /** The rental migration stores at most one rental per legacy entry. */
  lemma {:induction false} MigratedRentalsBound(p: Migration.People, items: seq<Items.Item>, lines: seq<string>,
                                                today: Rentals.Date, parseDate: string -> Option<Rentals.Date>)
    ensures |p.rentals| <= |Migration.MigratedUsers(p, items, lines, today, parseDate).rentals| <= |p.rentals| + LegacyRentalEntries(lines)
  {
    if lines != [] {
      var init := lines[..|lines| - 1];
      MigratedRentalsBound(p, items, init, today, parseDate);
      var line := lines[|lines| - 1];
      var mid := Migration.MigratedUsers(p, items, init, today, parseDate);
      assert Migration.MigratedUsers(p, items, lines, today, parseDate) == Migration.UserStep(mid, items, line, today, parseDate);
      UserStepRentalsBound(mid, items, line, today, parseDate);
    }
  }

  /** One line adds at most one rental per entry. */
  lemma UserStepRentalsBound(p: Migration.People, items: seq<Items.Item>, line: string, today: Rentals.Date,
                             parseDate: string -> Option<Rentals.Date>)
    ensures |p.rentals| <= |Migration.UserStep(p, items, line, today, parseDate).rentals| <= |p.rentals| + LineEntries(line)
  {
    Migration.UserStepRentals(p, items, line, today, parseDate);
    var words := Migration.Words(line);
    if words != [] {
      var c := Customers.GetOrCreate(p.customers, words[0]).1;
      Migration.EntryRentalsStored(items, c, words[1..], today, parseDate, c + 1, 0);
    }
  }

  /** Every rental entry of every line names a stored item. */
  predicate EntriesStorable(items: seq<Items.Item>, lines: seq<string>)
  {
    forall k, j :: 0 <= k < |lines| && 1 <= j < |Migration.Words(lines[k])| ==>
      Migration.EntryStorable(items, Migration.Words(lines[k])[j])
  }

  /** A line whose entries all name stored items adds one rental per entry. */
  lemma UserStepRentalsExact(p: Migration.People, items: seq<Items.Item>, line: string, today: Rentals.Date,
                             parseDate: string -> Option<Rentals.Date>)
    requires forall j :: 1 <= j < |Migration.Words(line)| ==> Migration.EntryStorable(items, Migration.Words(line)[j])
    ensures |Migration.UserStep(p, items, line, today, parseDate).rentals| == |p.rentals| + LineEntries(line)
  {
    Migration.UserStepRentals(p, items, line, today, parseDate);
    var words := Migration.Words(line);
    var r := Migration.UserStep(p, items, line, today, parseDate).rentals;
    if words != [] {
      var c := Customers.GetOrCreate(p.customers, words[0]).1;
      var entries := words[1..];
      assert r == p.rentals + Migration.EntryRentals(items, c, entries, today, parseDate);
      assert LineEntries(line) == |entries|;
      forall k | 0 <= k < |entries| ensures Migration.EntryStorable(items, entries[k]) {
        assert entries[k] == words[k + 1];
      }
      Migration.EntryRentalsAll(items, c, entries, today, parseDate);
    } else {
      assert r == p.rentals;
    }
  }

  /** The intended migration stores one rental per legacy entry when every
      entry names a stored item. */
  lemma {:induction false} MigratedRentalsExact(p: Migration.People, items: seq<Items.Item>, lines: seq<string>,
                                                today: Rentals.Date, parseDate: string -> Option<Rentals.Date>)
    requires EntriesStorable(items, lines)
    ensures |Migration.MigratedUsers(p, items, lines, today, parseDate).rentals| == |p.rentals| + LegacyRentalEntries(lines)
  {
    if lines != [] {
      var n := |lines| - 1;
      assert EntriesStorable(items, lines[..n]) by {
        assert forall k :: 0 <= k < n ==> lines[..n][k] == lines[k];
      }
      MigratedRentalsExact(p, items, lines[..n], today, parseDate);
      var mid := Migration.MigratedUsers(p, items, lines[..n], today, parseDate);
      assert Migration.MigratedUsers(p, items, lines, today, parseDate) == Migration.UserStep(mid, items, lines[n], today, parseDate);
      assert LegacyRentalEntries(lines) == LegacyRentalEntries(lines[..n]) + LineEntries(lines[n]);
      UserStepRentalsExact(mid, items, lines[n], today, parseDate);
    }
  }

  /** The rental check after the customer step on a database without
      rentals: as written it fails for any file with a rental entry, since
      no rental is stored; the intended migration passes it whenever every
      entry names a stored item. */
  lemma RentalCheckAsWrittenAndIntended(customers: seq<Customers.Customer>, items: seq<Items.Item>, lines: seq<string>,
                                        today: Rentals.Date, parseDate: string -> Option<Rentals.Date>)
    ensures var entries := LegacyRentalEntries(Migration.Body(lines));
            var asWritten := Migration.MigratedUsersAsWritten(Migration.People(customers, []), items, Migration.Body(lines), today, parseDate);
            entries > 0 ==> !RentalsValidated(|asWritten.rentals|, entries)
    ensures var entries := LegacyRentalEntries(Migration.Body(lines));
            var intended := Migration.MigratedUsers(Migration.People(customers, []), items, Migration.Body(lines), today, parseDate);
            EntriesStorable(items, Migration.Body(lines)) ==> |intended.rentals| == entries && RentalsValidated(|intended.rentals|, entries)
  {
    if EntriesStorable(items, Migration.Body(lines)) {
      MigratedRentalsExact(Migration.People(customers, []), items, Migration.Body(lines), today, parseDate);
    }
  }

  /** With no items stored every rental entry is skipped.  */
  lemma {:induction false} NoItemsNoRentals(customer: nat, entries: seq<string>, today: Rentals.Date,
                                            parseDate: string -> Option<Rentals.Date>)
    ensures Migration.EntryRentals([], customer, entries, today, parseDate) == []
  {
    if entries != [] {
      NoItemsNoRentals(customer, entries[..|entries| - 1], today, parseDate);
    }
  }

  /** A user file whose one line after the header has rental entries, read
      while no item is stored: every entry is counted and none stored, so
      the rental validation fails. */
  lemma EntriesWithoutItemsFailValidation(header: string, phone: string, entries: seq<string>, today: Rentals.Date,
                                          parseDate: string -> Option<Rentals.Date>)
    requires phone != [] && NoWhitespace(phone) && entries != []
    requires forall k :: 0 <= k < |entries| ==> entries[k] != [] && NoWhitespace(entries[k])
    ensures var lines := [header, JoinSpaced([phone] + entries)];
            var after := Migration.MigratedUsers(Migration.People([], []), [], Migration.Body(lines), today, parseDate);
            LegacyRentalEntries(Migration.Body(lines)) == |entries| && after.rentals == [] &&
            !RentalsValidated(|after.rentals|, LegacyRentalEntries(Migration.Body(lines)))
  {
    var words := [phone] + entries;
    Migration.WordsOfJoined(words);
    OneLineNoItems(header, JoinSpaced(words), today, parseDate);
  }

  /** One line after the header read while no item is stored: its words
      after the first are counted as entries and give no rental. */
  lemma OneLineNoItems(header: string, line: string, today: Rentals.Date,
                       parseDate: string -> Option<Rentals.Date>)
    requires |Migration.Words(line)| >= 2
    ensures var after := Migration.MigratedUsers(Migration.People([], []), [], Migration.Body([header, line]), today, parseDate);
            LegacyRentalEntries(Migration.Body([header, line])) == |Migration.Words(line)| - 1 && after.rentals == []
  {
    var body := Migration.Body([header, line]);
    assert body == [line];
    assert body[..0] == [];
    assert LegacyRentalEntries(body) == LineEntries(line);
    OneLineNoRentals(line, today, parseDate);
  }

  lemma OneLineNoRentals(line: string, today: Rentals.Date, parseDate: string -> Option<Rentals.Date>)
    ensures Migration.MigratedUsers(Migration.People([], []), [], [line], today, parseDate).rentals == []
  {
    var none := Migration.People([], []);
    assert [line][..0] == [];
    assert Migration.MigratedUsers(none, [], [line], today, parseDate) == Migration.UserStep(none, [], line, today, parseDate);
    var words := Migration.Words(line);
    Migration.UserStepRentals(none, [], line, today, parseDate);
    if words != [] {
      NoItemsNoRentals(Customers.GetOrCreate([], words[0]).1, words[1..], today, parseDate);
    }
  }

  /** Starting from an empty employee table, the employee validation passes
      exactly when every non-blank line created an employee; the same holds
      for items and coupons. */
  lemma CountsValidatedExactly(lines: seq<string>, hash: string -> string, parsePrice: string -> Option<real>)
    ensures var after := Migration.MigratedEmployees(Migration.Staff([], []), lines, hash).employees;
            CountValidated(|after|, CountLegacyFileLines(Some(lines))) <==> |after| == Migration.NonBlank(lines)
    ensures var after := Migration.MigratedItems([], lines, parsePrice);
            CountValidated(|after|, CountLegacyFileLines(Some(lines))) <==> |after| == Migration.NonBlank(lines)
    ensures var after := Migration.MigratedCoupons([], lines);
            CountValidated(|after|, CountLegacyFileLines(Some(lines))) <==> |after| == Migration.NonBlank(lines)
  {
    Migration.EmployeesAddedBound(Migration.Staff([], []), lines, hash);
    Migration.ItemsAddedBound([], lines, parsePrice);
    Migration.CouponsAddedBound([], lines);
  }
}
