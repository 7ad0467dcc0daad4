/** The one-off import of the legacy text files (`scripts/migrate_data.py`).
    Each file is given as its lines; a missing file is `None`. Reading a
    line strips it, skips it when blank and splits it on whitespace. A
    record whose username, legacy item id, phone or coupon code is already
    stored is not written again, so each table is specified by a fold over
    the lines from the table it started with.

    Parsing a price (`float`) and a date (`strptime` with `%m/%d/%y`) are
    parameters that give `None` where Python raises; `today` stands for
    `datetime.now().date()` and `hash` for Django's password hasher. */
module Migration {
  import opened Wrappers
  import opened Text
  import Employees
  import Items
  import Customers
  import Coupons
  import Rentals
  import Audit
  import Storage
  import EmployeeService
  import InventoryService

  /** The words of a legacy line (`line.strip().split()`). */
  function Words(line: string): (r: seq<string>)
    ensures r == [] <==> Strip(line) == []
    ensures forall k :: 0 <= k < |r| ==> r[k] != [] && NoWhitespace(r[k])
  {
    var s := Strip(line);
    var r := SplitWhitespace(s);
    assert s != [] ==> r != [] by {
      if s != [] {
        assert !IsWhitespace(s[0]);
      }
    }
    r
  }

  /** The lines after the header (`next(f, None)` skips the first one, if
      there is one). */
  function Body(lines: seq<string>): (r: seq<string>)
    ensures lines != [] ==> r == lines[1..]
    ensures lines == [] ==> r == []
  {
    if lines == [] then [] else lines[1..]
  }

  /** How many of `lines` are not blank. */
  function NonBlank(lines: seq<string>): (n: nat)
    ensures n <= |lines|
  {
    if lines == [] then 0
    else NonBlank(lines[..|lines| - 1]) + (if Strip(lines[|lines| - 1]) == [] then 0 else 1)
  }

  // ---------------------------------------------------------------------
  // Employees (`migrate_employees`)

  /** One line of the employee file: username, position, first name, last
      name and password, in that order. */
  datatype EmployeeRecord = EmployeeRecord(username: string, position: string, firstName: string, lastName: string,
                                           password: string)

  /** The record a line holds: its first five words; a line of fewer words
      holds none, and words after the fifth are ignored. */
  function EmployeeLine(line: string): (r: Option<EmployeeRecord>)
    ensures r.None? <==> |Words(line)| < 5
    ensures r.Some? ==> r.value.username != [] && NoWhitespace(r.value.username)
  {
    if Strip(line) == [] then None
    else
      var parts := Words(line);
      if |parts| < 5 then None
      else Some(EmployeeRecord(parts[0], parts[1], parts[2], parts[3], parts[4]))
  }

  /** The line the legacy system wrote for a record. */
  function EmployeeText(rec: EmployeeRecord): string
  {
    JoinSpaced([rec.username, rec.position, rec.firstName, rec.lastName, rec.password])
  }

  /** Every field is one word. */
  predicate EmployeeWords(rec: EmployeeRecord)
  {
    var fs := [rec.username, rec.position, rec.firstName, rec.lastName, rec.password];
    forall k :: 0 <= k < |fs| ==> fs[k] != [] && NoWhitespace(fs[k])
  }

  /** Words joined by spaces, with or without a line terminator, read back
      as those words. */
  lemma WordsOfJoined(ws: seq<string>)
    requires ws != [] && forall k :: 0 <= k < |ws| ==> ws[k] != [] && NoWhitespace(ws[k])
    ensures Words(JoinSpaced(ws)) == ws
    ensures Words(JoinSpaced(ws) + "\n") == ws
  {
    var s := JoinSpaced(ws);
    JoinSpacedEnds(ws);
    assert !IsWhitespace(s[0]) && !IsWhitespace(s[|s| - 1]);
    StripUnchanged(s);
    SplitJoinRoundTrip(ws);
    assert Words(s) == SplitWhitespace(Strip(s));
    assert Words(s + "\n") == SplitWhitespace(Strip(s + "\n"));
  }

  /** Reading a written record, with or without its line terminator, gives
      it back. */
  lemma EmployeeLineRoundTrip(rec: EmployeeRecord)
    requires EmployeeWords(rec)
    ensures EmployeeLine(EmployeeText(rec)) == Some(rec)
    ensures EmployeeLine(EmployeeText(rec) + "\n") == Some(rec)
  {
    var fs := [rec.username, rec.position, rec.firstName, rec.lastName, rec.password];
    var s := EmployeeText(rec);
    JoinSpacedEnds(fs);
    assert !IsWhitespace(fs[0][0]) && !IsWhitespace(fs[4][|fs[4]| - 1]);
    StripUnchanged(s);
    SplitJoinRoundTrip(fs);
  }

  /** The employee table and the audit log, the two tables this step writes. */
  datatype Staff = Staff(employees: seq<Employees.Employee>, auditLog: seq<Audit.Entry>)

  /** Some stored employee has `username`. */
  predicate HasUsername(employees: seq<Employees.Employee>, username: string)
  {
    exists k :: 0 <= k < |employees| && employees[k].username == username
  }

  /** One line: a record whose username is not stored is created through
      `create_employee`, which also logs the creation. */
  function EmployeeStep(st: Staff, line: string, hash: string -> string): Staff
  {
    match EmployeeLine(line)
    case None => st
    case Some(rec) =>
      if HasUsername(st.employees, rec.username) then st
      else
        Staff(st.employees + [Employees.NewEmployee(rec.username, hash(rec.password), rec.firstName, rec.lastName, rec.position)],
              st.auditLog + [Audit.Entry(|st.employees|, Audit.EmployeeCreated, "New employee " + rec.username + " created")])
  }

  /** The tables after reading `lines` in order. */
  function MigratedEmployees(st: Staff, lines: seq<string>, hash: string -> string): Staff
  {
    if lines == [] then st else EmployeeStep(MigratedEmployees(st, lines[..|lines| - 1], hash), lines[|lines| - 1], hash)
  }

  method MigrateEmployees(db: Storage.Database, lines: seq<string>, hash: string -> string)
    requires db.Valid()
    modifies db
    ensures db.Valid()
    ensures Staff(db.employees, db.auditLog) == MigratedEmployees(Staff(old(db.employees), old(db.auditLog)), lines, hash)
    ensures db.items == old(db.items) && db.customers == old(db.customers) && db.coupons == old(db.coupons)
    ensures db.transactions == old(db.transactions) && db.lines == old(db.lines) && db.rentals == old(db.rentals)
  {
    for k := 0 to |lines|
      invariant db.Valid()
      invariant Staff(db.employees, db.auditLog) == MigratedEmployees(Staff(old(db.employees), old(db.auditLog)), lines[..k], hash)
      invariant db.items == old(db.items) && db.customers == old(db.customers) && db.coupons == old(db.coupons)
      invariant db.transactions == old(db.transactions) && db.lines == old(db.lines) && db.rentals == old(db.rentals)
    {
      assert lines[..k + 1][..k] == lines[..k];
      var rec := EmployeeLine(lines[k]);
      if rec.Some? && !HasUsername(db.employees, rec.value.username) {
        var r := EmployeeService.CreateEmployee(db, rec.value.username, rec.value.password, rec.value.firstName,
                                                rec.value.lastName, rec.value.position, hash);
      }
    }
    assert lines[..|lines|] == lines;
  }

  /** Usernames, once stored, stay stored when rows are appended. */
  lemma HasUsernameGrows(es: seq<Employees.Employee>, more: seq<Employees.Employee>, username: string)
    requires es <= more && HasUsername(es, username)
    ensures HasUsername(more, username)
  {
    var k :| 0 <= k < |es| && es[k].username == username;
    assert more[k] == es[k];
  }

  /** Every record `lines` hold has its username stored in `employees`. */
  predicate UsernamesStored(employees: seq<Employees.Employee>, lines: seq<string>)
  {
    forall k :: 0 <= k < |lines| && EmployeeLine(lines[k]).Some? ==> HasUsername(employees, EmployeeLine(lines[k]).value.username)
  }

  /** Migrating only appends, and afterwards every record read has its
      username stored. */
  lemma {:induction false} EmployeesMigrated(st: Staff, lines: seq<string>, hash: string -> string)
    ensures st.employees <= MigratedEmployees(st, lines, hash).employees
    ensures st.auditLog <= MigratedEmployees(st, lines, hash).auditLog
    ensures UsernamesStored(MigratedEmployees(st, lines, hash).employees, lines)
  {
    if lines != [] {
      var init := lines[..|lines| - 1];
      EmployeesMigrated(st, init, hash);
      var mid := MigratedEmployees(st, init, hash).employees;
      var last := MigratedEmployees(st, lines, hash).employees;
      forall k | 0 <= k < |lines| && EmployeeLine(lines[k]).Some?
        ensures HasUsername(last, EmployeeLine(lines[k]).value.username)
      {
        var u := EmployeeLine(lines[k]).value.username;
        if k < |lines| - 1 {
          assert lines[k] == init[k];
          HasUsernameGrows(mid, last, u);
        } else if !HasUsername(mid, u) {
          assert last[|mid|].username == u;
        }
      }
    }
  }

  /** Lines whose usernames are all stored change nothing. */
  lemma {:induction false} StoredUsernamesSkipped(st: Staff, lines: seq<string>, hash: string -> string)
    requires UsernamesStored(st.employees, lines)
    ensures MigratedEmployees(st, lines, hash) == st
  {
    if lines != [] {
      var init := lines[..|lines| - 1];
      assert UsernamesStored(st.employees, init) by {
        forall k | 0 <= k < |init| ensures lines[k] == init[k] { }
      }
      StoredUsernamesSkipped(st, init, hash);
    }
  }

  /** Running the employee migration twice on the same file adds nothing
      the first run did not. */
  lemma EmployeeMigrationIdempotent(st: Staff, lines: seq<string>, hash: string -> string)
    ensures MigratedEmployees(MigratedEmployees(st, lines, hash), lines, hash) == MigratedEmployees(st, lines, hash)
  {
    EmployeesMigrated(st, lines, hash);
    StoredUsernamesSkipped(MigratedEmployees(st, lines, hash), lines, hash);
  }

  /** At most one employee is created per non-blank line, and each creation
      is logged. */
  lemma {:induction false} EmployeesAddedBound(st: Staff, lines: seq<string>, hash: string -> string)
    ensures |MigratedEmployees(st, lines, hash).employees| - |st.employees| <= NonBlank(lines)
    ensures |MigratedEmployees(st, lines, hash).employees| - |st.employees| ==
            |MigratedEmployees(st, lines, hash).auditLog| - |st.auditLog|
  {
    if lines != [] {
      EmployeesAddedBound(st, lines[..|lines| - 1], hash);
    }
  }

  // ---------------------------------------------------------------------
  // Items (`migrate_items`)

  /** The item a line holds: legacy id, name, price and quantity are its
      first four words; a line of fewer words, or whose id, price or
      quantity does not parse, holds none. */
  function ItemLine(line: string, parsePrice: string -> Option<real>): (r: Option<Items.Item>)
    ensures r.Some? <==>
              |Words(line)| >= 4 && ParseInt(Words(line)[0]).Some? && parsePrice(Words(line)[2]).Some? &&
              ParseInt(Words(line)[3]).Some?
    ensures r.Some? ==>
              Some(r.value.legacyItemId) == ParseInt(Words(line)[0]) && r.value.name == Words(line)[1] &&
              Some(r.value.price) == parsePrice(Words(line)[2]) && Some(r.value.quantity) == ParseInt(Words(line)[3])
  {
    if Strip(line) == [] then None
    else
      var parts := Words(line);
      if |parts| < 4 then None
      else
        match (ParseInt(parts[0]), parsePrice(parts[2]), ParseInt(parts[3]))
        case (Some(id), Some(price), Some(quantity)) => Some(Items.Item(id, parts[1], price, quantity))
        case _ => None
  }

  /** The line the legacy system wrote for an item, given the text of its
      price. */
  function ItemText(it: Items.Item, priceText: string): string
  {
    JoinSpaced([IntToString(it.legacyItemId), it.name, priceText, IntToString(it.quantity)])
  }

  /** Reading a written item gives it back when its name and price text are
      single words and the price text parses to its price. */
  lemma ItemLineRoundTrip(it: Items.Item, priceText: string, parsePrice: string -> Option<real>)
    requires it.name != [] && NoWhitespace(it.name)
    requires priceText != [] && NoWhitespace(priceText) && parsePrice(priceText) == Some(it.price)
    ensures ItemLine(ItemText(it, priceText), parsePrice) == Some(it)
    ensures ItemLine(ItemText(it, priceText) + "\n", parsePrice) == Some(it)
  {
    var fs := [IntToString(it.legacyItemId), it.name, priceText, IntToString(it.quantity)];
    IntToStringWord(it.legacyItemId);
    IntToStringWord(it.quantity);
    WordsOfJoined(fs);
    ItemOfWords(ItemText(it, priceText), it, priceText, parsePrice);
    ItemOfWords(ItemText(it, priceText) + "\n", it, priceText, parsePrice);
  }

  lemma ItemOfWords(line: string, it: Items.Item, priceText: string, parsePrice: string -> Option<real>)
    requires Words(line) == [IntToString(it.legacyItemId), it.name, priceText, IntToString(it.quantity)]
    requires parsePrice(priceText) == Some(it.price)
    ensures ItemLine(line, parsePrice) == Some(it)
  {
    ParseIntRoundTrip(it.legacyItemId);
    ParseIntRoundTrip(it.quantity);
  }

  /** Some stored item has `legacyId`. */
  predicate HasLegacyId(items: seq<Items.Item>, legacyId: int)
  {
    exists k :: 0 <= k < |items| && items[k].legacyItemId == legacyId
  }

  /** One line: an item whose legacy id is not stored is created as read,
      with no validation of its price or quantity. */
  function ItemStep(items: seq<Items.Item>, line: string, parsePrice: string -> Option<real>): seq<Items.Item>
  {
    match ItemLine(line, parsePrice)
    case None => items
    case Some(it) => if HasLegacyId(items, it.legacyItemId) then items else items + [it]
  }

  /** The item table after reading `lines` in order. */
  function MigratedItems(items: seq<Items.Item>, lines: seq<string>, parsePrice: string -> Option<real>): seq<Items.Item>
  {
    if lines == [] then items
    else ItemStep(MigratedItems(items, lines[..|lines| - 1], parsePrice), lines[|lines| - 1], parsePrice)
  }

  method MigrateItems(db: Storage.Database, lines: seq<string>, parsePrice: string -> Option<real>)
    requires db.Valid()
    modifies db
    ensures db.Valid()
    ensures db.items == MigratedItems(old(db.items), lines, parsePrice)
    ensures db.employees == old(db.employees) && db.customers == old(db.customers) && db.coupons == old(db.coupons)
    ensures db.transactions == old(db.transactions) && db.lines == old(db.lines) && db.rentals == old(db.rentals)
    ensures db.auditLog == old(db.auditLog)
  {
    var items := ReadItems(db.items, lines, parsePrice);
    Storage.RefsGrow(db.transactions, db.lines, db.rentals, db.auditLog,
                     |db.employees|, |db.items|, |db.customers|, |db.transactions|,
                     |db.employees|, |items|, |db.customers|, |db.transactions|);
    db.items := items;
  }

  /** The reading loop of `migrate_items`, from the item table as it was:
      legacy ids stay unique and no row is dropped. */
  method ReadItems(items: seq<Items.Item>, lines: seq<string>, parsePrice: string -> Option<real>) returns (r: seq<Items.Item>)
    requires Storage.UniqueLegacyIds(items)
    ensures r == MigratedItems(items, lines, parsePrice)
    ensures Storage.UniqueLegacyIds(r) && items <= r
  {
    r := items;
    for k := 0 to |lines|
      invariant r == MigratedItems(items, lines[..k], parsePrice)
      invariant Storage.UniqueLegacyIds(r) && items <= r
    {
      assert lines[..k + 1][..k] == lines[..k];
      var it := ItemLine(lines[k], parsePrice);
      if it.Some? && !HasLegacyId(r, it.value.legacyItemId) {
        NewLegacyIdUnique(r, it.value);
        r := r + [it.value];
      }
    }
    assert lines[..|lines|] == lines;
  }

  /** Appending an item whose legacy id is not stored keeps the ids unique. */
  lemma NewLegacyIdUnique(items: seq<Items.Item>, it: Items.Item)
    requires Storage.UniqueLegacyIds(items) && !HasLegacyId(items, it.legacyItemId)
    ensures Storage.UniqueLegacyIds(items + [it])
  {
    var more := items + [it];
    forall i, j | 0 <= i < j < |more| ensures more[i].legacyItemId != more[j].legacyItemId {
      assert more[i] == items[i];
    }
  }

  lemma HasLegacyIdGrows(items: seq<Items.Item>, more: seq<Items.Item>, legacyId: int)
    requires items <= more && HasLegacyId(items, legacyId)
    ensures HasLegacyId(more, legacyId)
  {
    var k :| 0 <= k < |items| && items[k].legacyItemId == legacyId;
    assert more[k] == items[k];
  }

  /** Every item `lines` hold has its legacy id stored in `items`. */
  predicate LegacyIdsStored(items: seq<Items.Item>, lines: seq<string>, parsePrice: string -> Option<real>)
  {
    forall k :: 0 <= k < |lines| && ItemLine(lines[k], parsePrice).Some? ==>
      HasLegacyId(items, ItemLine(lines[k], parsePrice).value.legacyItemId)
  }

  /** Migrating only appends, and afterwards every item read has its legacy
      id stored. */
  lemma {:induction false} ItemsMigrated(items: seq<Items.Item>, lines: seq<string>, parsePrice: string -> Option<real>)
    ensures items <= MigratedItems(items, lines, parsePrice)
    ensures LegacyIdsStored(MigratedItems(items, lines, parsePrice), lines, parsePrice)
  {
    if lines != [] {
      var init := lines[..|lines| - 1];
      ItemsMigrated(items, init, parsePrice);
      var mid := MigratedItems(items, init, parsePrice);
      var last := MigratedItems(items, lines, parsePrice);
      forall k | 0 <= k < |lines| && ItemLine(lines[k], parsePrice).Some?
        ensures HasLegacyId(last, ItemLine(lines[k], parsePrice).value.legacyItemId)
      {
        var id := ItemLine(lines[k], parsePrice).value.legacyItemId;
        if k < |lines| - 1 {
          assert lines[k] == init[k];
          HasLegacyIdGrows(mid, last, id);
        } else if !HasLegacyId(mid, id) {
          assert last[|mid|].legacyItemId == id;
        }
      }
    }
  }

  /** Lines whose legacy ids are all stored change nothing. */
  lemma {:induction false} StoredItemsSkipped(items: seq<Items.Item>, lines: seq<string>, parsePrice: string -> Option<real>)
    requires LegacyIdsStored(items, lines, parsePrice)
    ensures MigratedItems(items, lines, parsePrice) == items
  {
    if lines != [] {
      var init := lines[..|lines| - 1];
      assert LegacyIdsStored(items, init, parsePrice) by {
        forall k | 0 <= k < |init| ensures lines[k] == init[k] { }
      }
      StoredItemsSkipped(items, init, parsePrice);
    }
  }

  /** Running the item migration twice on the same file adds nothing the
      first run did not. */
  lemma ItemMigrationIdempotent(items: seq<Items.Item>, lines: seq<string>, parsePrice: string -> Option<real>)
    ensures MigratedItems(MigratedItems(items, lines, parsePrice), lines, parsePrice) == MigratedItems(items, lines, parsePrice)
  {
    ItemsMigrated(items, lines, parsePrice);
    StoredItemsSkipped(MigratedItems(items, lines, parsePrice), lines, parsePrice);
  }

  /** At most one item is created per non-blank line. */
  lemma {:induction false} ItemsAddedBound(items: seq<Items.Item>, lines: seq<string>, parsePrice: string -> Option<real>)
    ensures |MigratedItems(items, lines, parsePrice)| - |items| <= NonBlank(lines)
  {
    if lines != [] {
      ItemsAddedBound(items, lines[..|lines| - 1], parsePrice);
    }
  }

  // ---------------------------------------------------------------------
  // Customers and rentals (`migrate_customers_and_rentals`)

  /** A rental brought over from the legacy file: no transaction, due a
      week after its rental date, and returned exactly when its return date
      is its rental date. */
  predicate LegacyRental(r: Rentals.Rental)
  {
    r.transaction.None? && r.dueDate == Some(r.rentalDate + Rentals.RentalPeriodDays) &&
    (r.isReturned ==> r.returnDate == Some(r.rentalDate)) && (!r.isReturned ==> r.returnDate.None?)
  }

  /** The rental one entry (`itemID,date,returned`) of a customer's line
      gives, as saved on `today`: the item is looked up by its legacy id, a
      date that does not parse is `today`, and the entry counts as returned
      when its third field is `true` in any case. An entry of fewer than
      three fields, an id that does not parse or names no item gives none. */
  function EntryRental(items: seq<Items.Item>, customer: nat, entry: string, today: Rentals.Date,
                       parseDate: string -> Option<Rentals.Date>): (r: Option<Rentals.Rental>)
    ensures r.Some? <==>
              var fs := SplitOn(entry, ',');
              |fs| >= 3 && ParseInt(fs[0]).Some? && InventoryService.ItemByLegacyId(items, ParseInt(fs[0]).value).Some?
    ensures r.Some? ==>
              var fs := SplitOn(entry, ',');
              LegacyRental(r.value) && Rentals.Saved(r.value) && r.value.customer == customer &&
              r.value.item < |items| && Some(items[r.value.item].legacyItemId) == ParseInt(fs[0]) &&
              (parseDate(fs[1]).Some? ==> r.value.rentalDate == parseDate(fs[1]).value) &&
              (parseDate(fs[1]).None? ==> r.value.rentalDate == today) &&
              (r.value.isReturned <==> Lower(fs[2]) == "true") &&
              (r.value.daysOverdue.Some? <==> Rentals.IsOverdue(r.value, today))
  {
    var fs := SplitOn(entry, ',');
    if |fs| < 3 then None
    else
      var returned := Lower(fs[2]) == "true";
      var date := match parseDate(fs[1]) case Some(d) => d case None => today;
      match ParseInt(fs[0])
      case None => None
      case Some(legacyId) =>
        match InventoryService.ItemByLegacyId(items, legacyId)
        case None => None
        case Some(item) =>
          var due := date + Rentals.RentalPeriodDays;
          Some(Rentals.Save(Rentals.Rental(None, item, customer, date, Some(due), if returned then Some(date) else None,
                                           returned, None), today))
  }

  /** The rentals a customer's entries give, in order. */
  function EntryRentals(items: seq<Items.Item>, customer: nat, entries: seq<string>, today: Rentals.Date,
                        parseDate: string -> Option<Rentals.Date>): seq<Rentals.Rental>
  {
    if entries == [] then []
    else
      EntryRentals(items, customer, entries[..|entries| - 1], today, parseDate) +
      (match EntryRental(items, customer, entries[|entries| - 1], today, parseDate)
       case Some(r) => [r]
       case None => [])
  }

  /** An entry the intended migration turns into a rental: three fields,
      the first an integer naming a stored item's legacy id. */
  predicate EntryStorable(items: seq<Items.Item>, entry: string)
  {
    var fs := SplitOn(entry, ',');
    |fs| >= 3 && ParseInt(fs[0]).Some? && InventoryService.ItemByLegacyId(items, ParseInt(fs[0]).value).Some?
  }

  /** When every entry names a stored item, each gives exactly one rental. */
  lemma {:induction false} EntryRentalsAll(items: seq<Items.Item>, customer: nat, entries: seq<string>, today: Rentals.Date,
                                           parseDate: string -> Option<Rentals.Date>)
    requires forall k :: 0 <= k < |entries| ==> EntryStorable(items, entries[k])
    ensures |EntryRentals(items, customer, entries, today, parseDate)| == |entries|
  {
    if entries != [] {
      var n := |entries| - 1;
      assert forall k :: 0 <= k < n ==> entries[..n][k] == entries[k];
      EntryRentalsAll(items, customer, entries[..n], today, parseDate);
      assert EntryStorable(items, entries[n]);
      assert EntryRental(items, customer, entries[n], today, parseDate).Some?;
    }
  }

  /** At most one rental per entry, each a legacy rental of that customer
      stored as the tables require. */
  lemma {:induction false} EntryRentalsStored(items: seq<Items.Item>, customer: nat, entries: seq<string>, today: Rentals.Date,
                                              parseDate: string -> Option<Rentals.Date>, customers: nat, transactions: nat)
    requires customer < customers
    ensures |EntryRentals(items, customer, entries, today, parseDate)| <= |entries|
    ensures Storage.RentalRefs(EntryRentals(items, customer, entries, today, parseDate), |items|, customers, transactions)
    ensures forall k :: 0 <= k < |EntryRentals(items, customer, entries, today, parseDate)| ==>
              LegacyRental(EntryRentals(items, customer, entries, today, parseDate)[k]) &&
              EntryRentals(items, customer, entries, today, parseDate)[k].customer == customer
  {
    if entries != [] {
      var init := EntryRentals(items, customer, entries[..|entries| - 1], today, parseDate);
      EntryRentalsStored(items, customer, entries[..|entries| - 1], today, parseDate, customers, transactions);
      var r := EntryRental(items, customer, entries[|entries| - 1], today, parseDate);
      if r.Some? {
        assert Storage.RentalRefs([r.value], |items|, customers, transactions);
        Storage.RentalRefsAppend(init, [r.value], |items|, customers, transactions);
      }
    }
  }

  /** The customer and rental tables, the two this step writes. */
  datatype People = People(customers: seq<Customers.Customer>, rentals: seq<Rentals.Rental>)

  /** One line after the header: its first word is a phone number, whose
      customer is fetched or created, and each further word is a rental
      entry. */
  function UserStep(p: People, items: seq<Items.Item>, line: string, today: Rentals.Date,
                    parseDate: string -> Option<Rentals.Date>): People
  {
    var parts := Words(line);
    if Strip(line) == [] || |parts| < 1 then p
    else
      var (customers, c) := Customers.GetOrCreate(p.customers, parts[0]);
      People(customers, p.rentals + EntryRentals(items, c, parts[1..], today, parseDate))
  }

  /** The customers after one line: unchanged for a blank line, otherwise
      with the line's first word fetched or created. */
  lemma UserStepCustomers(p: People, items: seq<Items.Item>, line: string, today: Rentals.Date,
                          parseDate: string -> Option<Rentals.Date>)
    ensures var words := Words(line);
            UserStep(p, items, line, today, parseDate).customers ==
            if words == [] then p.customers else Customers.GetOrCreate(p.customers, words[0]).0
  {
  }

  /** The rentals after one line: those of its further words, for the
      customer of its first word, appended. */
  lemma UserStepRentals(p: People, items: seq<Items.Item>, line: string, today: Rentals.Date,
                        parseDate: string -> Option<Rentals.Date>)
    ensures var words := Words(line);
            UserStep(p, items, line, today, parseDate).rentals ==
            if words == [] then p.rentals
            else p.rentals + EntryRentals(items, Customers.GetOrCreate(p.customers, words[0]).1, words[1..], today, parseDate)
  {
  }

  /** The tables after reading `lines` (the header already skipped). */
  function MigratedUsers(p: People, items: seq<Items.Item>, lines: seq<string>, today: Rentals.Date,
                         parseDate: string -> Option<Rentals.Date>): People
  {
    if lines == [] then p
    else UserStep(MigratedUsers(p, items, lines[..|lines| - 1], today, parseDate), items, lines[|lines| - 1], today, parseDate)
  }

  // The script as written against the schema as declared: the rentals
  // table's `transaction` column is NOT NULL (rental.py:12), so every
  // `Rental.objects.create(..., transaction=None)` raises and the `except`
  // around it skips the entry. `UserStep` and `MigratedUsers` above are the
  // migration with the column nullable, as the historical rows need.

  /** The rows of `rs` an insert into the declared rentals table keeps: a row
      without a transaction violates the NOT NULL column, and the error is
      swallowed. */
  function InsertDeclared(rs: seq<Rentals.Rental>): (r: seq<Rentals.Rental>)
    ensures forall x :: x in r <==> x in rs && x.transaction.Some?
    ensures |r| <= |rs|
  {
    if rs == [] then []
    else
      assert forall x :: x in rs <==> x == rs[0] || x in rs[1..];
      (if rs[0].transaction.Some? then [rs[0]] else []) + InsertDeclared(rs[1..])
  }

  /** No legacy rental gets past the NOT NULL column. */
  lemma {:induction false} NoLegacyInserted(rs: seq<Rentals.Rental>)
    requires forall k :: 0 <= k < |rs| ==> LegacyRental(rs[k])
    ensures InsertDeclared(rs) == []
  {
    if rs != [] {
      assert LegacyRental(rs[0]);
      assert forall k :: 0 <= k < |rs[1..]| ==> rs[1..][k] == rs[k + 1];
      NoLegacyInserted(rs[1..]);
    }
  }

  /** One line as the script runs it: the customer is fetched or created,
      and each entry's rental is inserted into the declared table, so none
      is stored. */
  function UserStepAsWritten(p: People, items: seq<Items.Item>, line: string, today: Rentals.Date,
                             parseDate: string -> Option<Rentals.Date>): (q: People)
    ensures q.customers == UserStep(p, items, line, today, parseDate).customers
    ensures q.rentals == p.rentals
  {
    var parts := Words(line);
    if Strip(line) == [] || |parts| < 1 then p
    else
      var (customers, c) := Customers.GetOrCreate(p.customers, parts[0]);
      var added := EntryRentals(items, c, parts[1..], today, parseDate);
      EntryRentalsStored(items, c, parts[1..], today, parseDate, |customers|, 0);
      NoLegacyInserted(added);
      assert p.rentals + [] == p.rentals;
      People(customers, p.rentals + InsertDeclared(added))
  }

  /** `migrate_customers_and_rentals` as written: the customers of the intended
      migration, and the rentals table as it was. */
  function MigratedUsersAsWritten(p: People, items: seq<Items.Item>, lines: seq<string>, today: Rentals.Date,
                                  parseDate: string -> Option<Rentals.Date>): (q: People)
    ensures q.customers == MigratedUsers(p, items, lines, today, parseDate).customers
    ensures q.rentals == p.rentals
  {
    if lines == [] then p
    else
      var n := |lines| - 1;
      var mid := MigratedUsersAsWritten(p, items, lines[..n], today, parseDate);
      var intended := MigratedUsers(p, items, lines[..n], today, parseDate);
      UserStepCustomers(mid, items, lines[n], today, parseDate);
      UserStepCustomers(intended, items, lines[n], today, parseDate);
      UserStepAsWritten(mid, items, lines[n], today, parseDate)
  }

  /** As written, running the customer step twice is running it once: the
      second run finds every phone stored and no rental is ever added. */
  lemma AsWrittenIdempotent(p: People, items: seq<Items.Item>, lines: seq<string>, today: Rentals.Date,
                            parseDate: string -> Option<Rentals.Date>)
    ensures var once := MigratedUsersAsWritten(p, items, lines, today, parseDate);
            MigratedUsersAsWritten(once, items, lines, today, parseDate) == once
  {
    var once := MigratedUsersAsWritten(p, items, lines, today, parseDate);
    var intended := MigratedUsers(p, items, lines, today, parseDate);
    CustomersMigrated(p, items, lines, today, parseDate);
    StoredPhonesKept(once, items, lines, today, parseDate);
  }

  /** The inner loop of `migrate_customers_and_rentals`: the rentals of one
      customer's entries, in order. */
  method ReadEntries(items: seq<Items.Item>, customer: nat, entries: seq<string>, today: Rentals.Date,
                     parseDate: string -> Option<Rentals.Date>) returns (r: seq<Rentals.Rental>)
    ensures r == EntryRentals(items, customer, entries, today, parseDate)
  {
    r := [];
    for k := 0 to |entries|
      invariant r == EntryRentals(items, customer, entries[..k], today, parseDate)
    {
      EntryRentalsStep(items, customer, entries, today, parseDate, k);
      var rental := EntryRental(items, customer, entries[k], today, parseDate);
      if rental.Some? {
        r := r + [rental.value];
      }
    }
    assert entries[..|entries|] == entries;
  }

  /** One more entry adds its rental, if it gives one. */
  lemma EntryRentalsStep(items: seq<Items.Item>, customer: nat, entries: seq<string>, today: Rentals.Date,
                         parseDate: string -> Option<Rentals.Date>, k: nat)
    requires k < |entries|
    ensures var e := EntryRental(items, customer, entries[k], today, parseDate);
            EntryRentals(items, customer, entries[..k + 1], today, parseDate) ==
            EntryRentals(items, customer, entries[..k], today, parseDate) + (if e.Some? then [e.value] else [])
  {
    assert entries[..k + 1][..k] == entries[..k];
    assert entries[..k + 1][k] == entries[k];
  }

  method MigrateCustomersAndRentals(db: Storage.Database, lines: seq<string>, today: Rentals.Date,
                                    parseDate: string -> Option<Rentals.Date>)
    requires db.Valid()
    modifies db
    ensures db.Valid()
    ensures People(db.customers, db.rentals) ==
            MigratedUsers(People(old(db.customers), old(db.rentals)), db.items, Body(lines), today, parseDate)
    ensures db.employees == old(db.employees) && db.items == old(db.items) && db.coupons == old(db.coupons)
    ensures db.transactions == old(db.transactions) && db.lines == old(db.lines) && db.auditLog == old(db.auditLog)
  {
    var q := ReadUsers(People(db.customers, db.rentals), db.items, Body(lines), today, parseDate, |db.transactions|);
    Storage.RefsGrow(db.transactions, db.lines, db.rentals, db.auditLog,
                     |db.employees|, |db.items|, |db.customers|, |db.transactions|,
                     |db.employees|, |db.items|, |q.customers|, |db.transactions|);
    db.customers, db.rentals := q.customers, q.rentals;
  }

  /** The customer and rental tables may be stored: phones unique, every
      rental referring to existing rows. */
  predicate PeopleStored(p: People, items: nat, transactions: nat)
  {
    Customers.UniquePhones(p.customers) && Storage.RentalRefs(p.rentals, items, |p.customers|, transactions)
  }

  /** The line loop of `migrate_customers_and_rentals`, from the tables as they
      were: no customer is dropped and the tables stay storable. */
  method ReadUsers(p: People, items: seq<Items.Item>, lines: seq<string>, today: Rentals.Date,
                   parseDate: string -> Option<Rentals.Date>, transactions: nat) returns (q: People)
    requires PeopleStored(p, |items|, transactions)
    ensures q == MigratedUsers(p, items, lines, today, parseDate)
    ensures PeopleStored(q, |items|, transactions) && |p.customers| <= |q.customers|
  {
    q := p;
    for k := 0 to |lines|
      invariant q == MigratedUsers(p, items, lines[..k], today, parseDate)
      invariant PeopleStored(q, |items|, transactions) && |p.customers| <= |q.customers|
    {
      assert lines[..k + 1][..k] == lines[..k];
      q := ReadUserLine(q, items, lines[k], today, parseDate, transactions);
    }
    assert lines[..|lines|] == lines;
  }

  /** One line after the header: its customer is fetched or created and
      the rentals of its entries appended. */
  method ReadUserLine(p: People, items: seq<Items.Item>, line: string, today: Rentals.Date,
                      parseDate: string -> Option<Rentals.Date>, transactions: nat) returns (q: People)
    requires PeopleStored(p, |items|, transactions)
    ensures q == UserStep(p, items, line, today, parseDate)
    ensures PeopleStored(q, |items|, transactions) && |p.customers| <= |q.customers|
  {
    q := p;
    var parts := Words(line);
    if Strip(line) != [] && |parts| >= 1 {
      var (customers, c) := Customers.GetOrCreate(p.customers, parts[0]);
      var added := ReadEntries(items, c, parts[1..], today, parseDate);
      EntryRentalsStored(items, c, parts[1..], today, parseDate, |customers|, transactions);
      Storage.RefsGrow([], [], p.rentals, [], 0, |items|, |p.customers|, transactions, 0, |items|, |customers|, transactions);
      Storage.RentalRefsAppend(p.rentals, added, |items|, |customers|, transactions);
      q := People(customers, p.rentals + added);
    }
  }

  /** Some stored customer has `phone`. */
  predicate HasPhone(customers: seq<Customers.Customer>, phone: string)
  {
    exists k :: 0 <= k < |customers| && customers[k].phoneNumber == phone
  }

  /** Every non-blank line's phone has a customer in `customers`. */
  predicate PhonesStored(customers: seq<Customers.Customer>, lines: seq<string>)
  {
    forall k :: 0 <= k < |lines| && Words(lines[k]) != [] ==> HasPhone(customers, Words(lines[k])[0])
  }

  /** Migrating only appends customers, and afterwards every line's phone
      has a customer. */
  lemma {:induction false} CustomersMigrated(p: People, items: seq<Items.Item>, lines: seq<string>, today: Rentals.Date,
                                             parseDate: string -> Option<Rentals.Date>)
    ensures p.customers <= MigratedUsers(p, items, lines, today, parseDate).customers
    ensures p.rentals <= MigratedUsers(p, items, lines, today, parseDate).rentals
    ensures PhonesStored(MigratedUsers(p, items, lines, today, parseDate).customers, lines)
  {
    if lines != [] {
      var n := |lines| - 1;
      CustomersMigrated(p, items, lines[..n], today, parseDate);
      var before := MigratedUsers(p, items, lines[..n], today, parseDate);
      assert MigratedUsers(p, items, lines, today, parseDate) == UserStep(before, items, lines[n], today, parseDate);
      UserStepGrows(before, items, lines[n], today, parseDate);
      var last := UserStep(before, items, lines[n], today, parseDate).customers;
      forall k | 0 <= k < |lines| && Words(lines[k]) != [] ensures HasPhone(last, Words(lines[k])[0]) {
        if k < n {
          assert lines[k] == lines[..n][k];
          HasPhoneGrows(before.customers, last, Words(lines[k])[0]);
        } else {
          assert k == n;
        }
      }
    }
  }

  lemma HasPhoneGrows(a: seq<Customers.Customer>, b: seq<Customers.Customer>, phone: string)
    requires a <= b && HasPhone(a, phone)
    ensures HasPhone(b, phone)
  {
    var j :| 0 <= j < |a| && a[j].phoneNumber == phone;
    assert b[j] == a[j];
  }

  /** One line only appends customers and rentals, and its phone then has
      a customer. */
  lemma UserStepGrows(p: People, items: seq<Items.Item>, line: string, today: Rentals.Date,
                      parseDate: string -> Option<Rentals.Date>)
    ensures p.customers <= UserStep(p, items, line, today, parseDate).customers
    ensures p.rentals <= UserStep(p, items, line, today, parseDate).rentals
    ensures Words(line) != [] ==> HasPhone(UserStep(p, items, line, today, parseDate).customers, Words(line)[0])
  {
    UserStepCustomers(p, items, line, today, parseDate);
    UserStepRentals(p, items, line, today, parseDate);
    var words := Words(line);
    if words != [] {
      var g := Customers.GetOrCreate(p.customers, words[0]);
      assert g.0[g.1].phoneNumber == words[0];
    }
  }

  /** Lines whose phones all have customers create no customer. */
  lemma {:induction false} StoredPhonesKept(p: People, items: seq<Items.Item>, lines: seq<string>, today: Rentals.Date,
                                            parseDate: string -> Option<Rentals.Date>)
    requires PhonesStored(p.customers, lines)
    ensures MigratedUsers(p, items, lines, today, parseDate).customers == p.customers
  {
    if lines != [] {
      var init := lines[..|lines| - 1];
      assert PhonesStored(p.customers, init) by {
        forall k | 0 <= k < |init| ensures lines[k] == init[k] { }
      }
      StoredPhonesKept(p, items, init, today, parseDate);
      var last := lines[|lines| - 1];
      if Words(last) != [] {
        assert Customers.FindByPhone(p.customers, Words(last)[0]).Some?;
      }
    }
  }

  /** Running the customer migration twice on the same file creates no
      further customer. (Each run stores its rentals again.) */
  lemma CustomerMigrationIdempotent(p: People, items: seq<Items.Item>, lines: seq<string>, today: Rentals.Date,
                                    parseDate: string -> Option<Rentals.Date>)
    ensures MigratedUsers(MigratedUsers(p, items, lines, today, parseDate), items, lines, today, parseDate).customers ==
            MigratedUsers(p, items, lines, today, parseDate).customers
  {
    CustomersMigrated(p, items, lines, today, parseDate);
    StoredPhonesKept(MigratedUsers(p, items, lines, today, parseDate), items, lines, today, parseDate);
  }

  // ---------------------------------------------------------------------
  // Coupons (`migrate_coupons`)

  /** The coupon a line holds: the line stripped is its code; a blank line
      holds none. Every coupon read is active, takes 10 percent off and
      does not expire. */
  function CouponLine(line: string): (r: Option<Coupons.Coupon>)
    ensures r.None? <==> AllWhitespace(line)
    ensures r.Some? ==> r.value.code == Strip(line) && r.value.isActive && r.value.expiresAt.None? &&
                        r.value.discountPercentage == Coupons.DefaultDiscountPercentage && Coupons.FieldsValid(r.value)
  {
    var code := Strip(line);
    if code == [] then None else Some(Coupons.Coupon(code, 10.0, true, None))
  }

  /** Some stored coupon has `code`. */
  predicate HasCode(coupons: seq<Coupons.Coupon>, code: string)
  {
    exists k :: 0 <= k < |coupons| && coupons[k].code == code
  }

  /** One line: a code not stored is created. */
  function CouponStep(coupons: seq<Coupons.Coupon>, line: string): seq<Coupons.Coupon>
  {
    match CouponLine(line)
    case None => coupons
    case Some(c) => if HasCode(coupons, c.code) then coupons else coupons + [c]
  }

  /** The coupon table after reading `lines` in order. */
  function MigratedCoupons(coupons: seq<Coupons.Coupon>, lines: seq<string>): seq<Coupons.Coupon>
  {
    if lines == [] then coupons else CouponStep(MigratedCoupons(coupons, lines[..|lines| - 1]), lines[|lines| - 1])
  }

  method MigrateCoupons(db: Storage.Database, lines: seq<string>)
    requires db.Valid()
    modifies db
    ensures db.Valid()
    ensures db.coupons == MigratedCoupons(old(db.coupons), lines)
    ensures db.employees == old(db.employees) && db.items == old(db.items) && db.customers == old(db.customers)
    ensures db.transactions == old(db.transactions) && db.lines == old(db.lines) && db.rentals == old(db.rentals)
    ensures db.auditLog == old(db.auditLog)
  {
    var coupons := ReadCoupons(db.coupons, lines);
    db.coupons := coupons;
  }

  /** The reading loop of `migrate_coupons`, from the coupon table as it
      was: codes stay unique and no row is dropped. */
  method ReadCoupons(coupons: seq<Coupons.Coupon>, lines: seq<string>) returns (r: seq<Coupons.Coupon>)
    requires Storage.UniqueCodes(coupons)
    ensures r == MigratedCoupons(coupons, lines)
    ensures Storage.UniqueCodes(r) && coupons <= r
  {
    r := coupons;
    for k := 0 to |lines|
      invariant r == MigratedCoupons(coupons, lines[..k])
      invariant Storage.UniqueCodes(r) && coupons <= r
    {
      assert lines[..k + 1][..k] == lines[..k];
      var c := CouponLine(lines[k]);
      if c.Some? && !HasCode(r, c.value.code) {
        NewCodeUnique(r, c.value);
        r := r + [c.value];
      }
    }
    assert lines[..|lines|] == lines;
  }

  /** Appending a coupon whose code is not stored keeps the codes unique. */
  lemma NewCodeUnique(coupons: seq<Coupons.Coupon>, c: Coupons.Coupon)
    requires Storage.UniqueCodes(coupons) && !HasCode(coupons, c.code)
    ensures Storage.UniqueCodes(coupons + [c])
  {
    var more := coupons + [c];
    forall i, j | 0 <= i < j < |more| ensures more[i].code != more[j].code {
      assert more[i] == coupons[i];
    }
  }

  /** Every non-blank line's code is stored in `coupons`. */
  predicate CodesStored(coupons: seq<Coupons.Coupon>, lines: seq<string>)
  {
    forall k :: 0 <= k < |lines| && CouponLine(lines[k]).Some? ==> HasCode(coupons, Strip(lines[k]))
  }

  /** Migrating only appends, and afterwards every code read is stored. */
  lemma {:induction false} CouponsMigrated(coupons: seq<Coupons.Coupon>, lines: seq<string>)
    ensures coupons <= MigratedCoupons(coupons, lines)
    ensures CodesStored(MigratedCoupons(coupons, lines), lines)
  {
    if lines != [] {
      var init := lines[..|lines| - 1];
      CouponsMigrated(coupons, init);
      var mid := MigratedCoupons(coupons, init);
      var last := MigratedCoupons(coupons, lines);
      forall k | 0 <= k < |lines| && CouponLine(lines[k]).Some? ensures HasCode(last, Strip(lines[k])) {
        var code := Strip(lines[k]);
        if k < |lines| - 1 {
          assert lines[k] == init[k];
          var j :| 0 <= j < |mid| && mid[j].code == code;
          assert last[j] == mid[j];
        } else if !HasCode(mid, code) {
          assert last[|mid|].code == code;
        }
      }
    }
  }

  /** Lines whose codes are all stored change nothing. */
  lemma {:induction false} StoredCodesSkipped(coupons: seq<Coupons.Coupon>, lines: seq<string>)
    requires CodesStored(coupons, lines)
    ensures MigratedCoupons(coupons, lines) == coupons
  {
    if lines != [] {
      var init := lines[..|lines| - 1];
      assert CodesStored(coupons, init) by {
        forall k | 0 <= k < |init| ensures lines[k] == init[k] { }
      }
      StoredCodesSkipped(coupons, init);
    }
  }

  /** Running the coupon migration twice on the same file adds nothing the
      first run did not. */
  lemma CouponMigrationIdempotent(coupons: seq<Coupons.Coupon>, lines: seq<string>)
    ensures MigratedCoupons(MigratedCoupons(coupons, lines), lines) == MigratedCoupons(coupons, lines)
  {
    CouponsMigrated(coupons, lines);
    StoredCodesSkipped(MigratedCoupons(coupons, lines), lines);
  }

  /** At most one coupon is created per non-blank line. */
  lemma {:induction false} CouponsAddedBound(coupons: seq<Coupons.Coupon>, lines: seq<string>)
    ensures |MigratedCoupons(coupons, lines)| - |coupons| <= NonBlank(lines)
  {
    if lines != [] {
      CouponsAddedBound(coupons, lines[..|lines| - 1]);
    }
  }

  // ---------------------------------------------------------------------
  // The whole run (`main`)

  /** The four legacy files; a file that does not exist is `None`. */
  datatype LegacyFiles = LegacyFiles(employees: Option<seq<string>>, items: Option<seq<string>>,
                                     users: Option<seq<string>>, coupons: Option<seq<string>>)

  /** Runs the four steps in order, each only when its file exists; when
      the legacy directory itself is missing (`None`) nothing is done. */
  method Migrate(db: Storage.Database, files: Option<LegacyFiles>, hash: string -> string,
                 parsePrice: string -> Option<real>, parseDate: string -> Option<Rentals.Date>, today: Rentals.Date)
    requires db.Valid()
    modifies db
    ensures db.Valid()
    ensures files.None? ==> unchanged(db)
    ensures files.Some? ==>
              var f := files.value;
              var staff := Staff(old(db.employees), old(db.auditLog));
              var items := if f.items.Some? then MigratedItems(old(db.items), f.items.value, parsePrice) else old(db.items);
              var people := People(old(db.customers), old(db.rentals));
              Staff(db.employees, db.auditLog) ==
                (if f.employees.Some? then MigratedEmployees(staff, f.employees.value, hash) else staff) &&
              db.items == items &&
              People(db.customers, db.rentals) ==
                (if f.users.Some? then MigratedUsers(people, items, Body(f.users.value), today, parseDate) else people) &&
              db.coupons == (if f.coupons.Some? then MigratedCoupons(old(db.coupons), f.coupons.value) else old(db.coupons))
    ensures db.transactions == old(db.transactions) && db.lines == old(db.lines)
  {
    if files.None? {
      return;
    }
    var f := files.value;
    if f.employees.Some? {
      MigrateEmployees(db, f.employees.value, hash);
    }
    if f.items.Some? {
      MigrateItems(db, f.items.value, parsePrice);
    }
    if f.users.Some? {
      MigrateCustomersAndRentals(db, f.users.value, today, parseDate);
    }
    if f.coupons.Some? {
      MigrateCoupons(db, f.coupons.value);
    }
  }
}
