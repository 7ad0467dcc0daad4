# Point-of-sale engine: a Dafny model

This project models the core of a small point-of-sale system for a shop that
sells and rents items. The system is a Django back end with a React front end,
plus two maintenance scripts. The model covers:

- **The models.** Items, coupons, customers, rentals, employees, transactions
  with their lines, and audit-log entries. Each is a value (a `datatype`), and
  each model method is a function on that value:
  - `reduce_quantity` / `increase_quantity`;
  - `is_valid` / `apply_discount`;
  - the phone-number validator;
  - `Rental.save` / `mark_as_returned` / `is_overdue`;
  - `set_password` / `check_password` / `full_name`;
  - `TransactionItem.save`.
- **The database.** A class `Storage.Database` holds one `seq` per table. Its
  predicate `Valid()` states that the unique columns are unique and that every
  foreign key names an existing row. Row ids are positions in the table.
- **The transaction engine.** `create_sale`, `create_rental` and
  `process_return` are methods on the database. Each is proved against
  specification functions: the transaction record, the lines, the stock after
  the reductions, the rental rows, and the returned rentals. Lemmas state what
  these functions mean:
  - stock is conserved across a rental and across a return;
  - a cart naming an item twice loses an update;
  - lines add up to the subtotal;
  - returning twice finds nothing.
- **The services.**
  - Rental queries, as index lists with their filter and order proved.
  - Inventory lookups, the search and the quantity update.
  - Employee authentication, logout, create, update and soft delete, with
    their audit entries.
- **The request serializers** for sales and rentals.
- **The legacy-data migration script** (`migrate_data.py`). It covers
  employees, items, customers with their rentals, coupons, and the driver.
  The model parses lines word by word, skips rows already stored, and proves
  round trips, idempotence and bounds on what is added.
- **The migration validation script** (`validate_migration.py`). It covers
  the line counts, the phone set, the rental-entry count, the integrity
  checks and the exit code. Lemmas tie its checks to the migration.
- **The cart logic of the sale, rental and return screens** (`Sales.js`,
  `Rentals.js`, `Returns.js`). Each handler is a pure function from the cart
  to a new cart or a notice. Lemmas prove that each cart invariant is kept
  and that what a screen sends passes the server's validation.

These are parameters rather than modelled:

- The current date or time (`today`, `now`) is an `int` counting days, and
  is passed in.
- The password hasher is a function `hash`.
- The price parser is a function `parsePrice`.
- The date parser is a function `parseDate`.

Money is `real`: it is exact, so `Decimal` rounding is not modelled.

## Model

| member | source | states |
|---|---|---|
| Items.ReduceQuantity | backend/pos_app/models/item.py:26-36 | succeeds exactly when the stock covers the amount; then the stock drops by the amount, otherwise the item is unchanged; other fields are untouched and a non-negative stock stays non-negative |
| Items.IncreaseQuantity | backend/pos_app/models/item.py:38-42 | always succeeds and adds the amount to the stock, other fields untouched |
| Items.ReduceThenIncrease | backend/pos_app/models/item.py:30-42 | a successful reduction followed by an increase of the same amount restores the item |
| Items.IncreaseThenReduce | backend/pos_app/models/item.py:30-42 | on a non-negative stock, increasing then reducing by the same amount succeeds and restores the item |
| Items.AvailabilityShifts | backend/pos_app/models/item.py:26-28 | `is_available` holds for every smaller request; after an increase by `a` a request is available exactly when one `a` smaller was before, and after a successful reduction exactly when one `a` larger was |
| Items.StockUpdatesKeepValid | backend/pos_app/models/item.py:10-11 | with a non-negative amount both stock methods keep the price and quantity validators; an increase that takes the stock below 0 breaks them |
| Coupons.IsValid | backend/pos_app/models/coupon.py:32-38 | valid exactly when active and either without expiry or not yet expired |
| Coupons.ApplyDiscount | backend/pos_app/models/coupon.py:40-45 | an invalid coupon leaves the amount; a valid one takes off its percentage; with a percentage in 0..100 the result lies between 0 and the amount |
| Coupons.FieldsValidExactly | backend/pos_app/models/coupon.py:10-15 | the percentage validators (0 to 100) hold exactly when applying the coupon, made active and without expiry, keeps every non-negative amount between 0 and itself |
| Coupons.DefaultDiscountTakesTenth | backend/pos_app/models/coupon.py:14 | for every amount, a valid coupon with the default percentage (10) gives nine tenths of it, and an invalid one gives the amount unchanged |
| Customers.MatchDigitRunMeaning | backend/pos_app/models/customer.py:8-11 | the regex matcher for `\d{lo,hi}` accepts exactly the all-digit strings whose length is in range |
| Customers.PhoneAcceptedAsWritten | backend/pos_app/models/customer.py:8-18 | the validator as written (Python `$`, which also matches before a final newline) accepts a 10-15 digit string, optionally followed by one newline, within the column's 15 characters |
| Customers.TrailingNewlineAccepted | backend/pos_app/models/customer.py:9 | "1234567890\n" passes the validator as written although it is not all digits |
| Customers.PhoneValid | backend/pos_app/models/customer.py:8-11 | a phone is valid exactly when it is 10 to 15 digits |
| Customers.PhoneValidRejects | backend/pos_app/models/customer.py:8-18 | too short, too long, or any non-digit makes a phone invalid |
| Customers.FindByPhone | backend/pos_app/services/transaction_service.py:211 | the lookup returns a row holding that phone, and none exactly when no row does |
| Customers.FindByPhoneUnique | backend/pos_app/models/customer.py:13-18 | with unique phone numbers the lookup returns the one row that holds the phone |
| Customers.GetOrCreate | backend/pos_app/services/transaction_service.py:118 | returns the existing customer unchanged, or appends a new one; the result holds the phone and phones stay unique |
| Rentals.NewRental | backend/pos_app/models/rental.py:12-19 | a new rental is not returned, has no return date and no overdue days, and carries the given fields |
| Rentals.Save | backend/pos_app/models/rental.py:35-48 | the due date defaults to rental date + 7; overdue days are set exactly when unreturned and past due, or returned after the due date, and are then the days late (at least 1); nothing else changes |
| Rentals.MarkAsReturned | backend/pos_app/models/rental.py:50-54 | the rental becomes returned with the given date or today, and overdue days are recorded exactly when it came back late |
| Rentals.SaveIdempotent | backend/pos_app/models/rental.py:35-48 | saving twice on the same day is the same as saving once |
| Rentals.SavedOverdueAgrees | backend/pos_app/models/rental.py:41-58 | for an unreturned rental, after save the stored overdue days agree with `is_overdue` and equal today minus the due date |
| Rentals.ReturnedNotOverdue | backend/pos_app/models/rental.py:50-58 | a returned rental is never overdue, and one returned by its due date records no overdue days |
| Rentals.OverdueStaysOverdue | backend/pos_app/models/rental.py:56-58 | `is_overdue` stays true on every later day; a rental is not overdue on its due date, and an unreturned one is overdue the day after |
| Employees.NewEmployee | backend/pos_app/models/employee.py:13-20 | a new employee is active and carries the given fields |
| Employees.FullName | backend/pos_app/models/employee.py:41-43 | the full name is the first name, one space, the last name |
| Employees.FullNameSplits | backend/pos_app/models/employee.py:41-43 | splitting the full name on whitespace gives back the first and last names when neither holds whitespace |
| Employees.AdminOrCashier | backend/pos_app/models/employee.py:45-49 | `is_admin` and `is_cashier` never both hold, and a position meets the choices exactly when one of them does |
| Employees.PositionChoices | backend/pos_app/models/employee.py:8-17 | a new employee meets the position choices exactly when given `Admin` or `Cashier`; setting a password does not change whether they hold |
| Employees.SetPassword | backend/pos_app/models/employee.py:33-39 | only the hash changes, and the new password checks |
| Employees.SetPasswordChecks | backend/pos_app/models/employee.py:33-39 | under a hash that is injective and never the identity, the stored hash is not the raw password and exactly the set password checks |
| Employees.CheckPasswordUnique | backend/pos_app/models/employee.py:37-39 | under an injective hash, at most one password checks against any stored hash |
| Transactions.NewTransaction | backend/pos_app/models/transaction.py:16-22 | a new transaction has the 6% default tax rate, no discount, no customer and no coupon |
| Transactions.SaveLine | backend/pos_app/models/transaction.py:63-66 | saving sets the subtotal to unit price times quantity and keeps the other fields; the field validators then hold |
| Transactions.SaveLineIgnoresSubtotal | backend/pos_app/models/transaction.py:63-66 | saving is idempotent and ignores whatever subtotal the line held |
| Transactions.SavedLineValid | backend/pos_app/models/transaction.py:49-51 | after a save the line validators hold exactly when the quantity is at least 1 and the unit price at least 0 |
| Storage.Database.constructor | backend/pos_app/models/__init__.py:1-19 | an empty database is valid and its stock is non-negative |
| TransactionService.LineError | backend/pos_app/services/transaction_service.py:35-40 | one cart line fails with ItemNotFound for an unknown id, or with InsufficientQuantity(name) when the stock does not cover it, and passes otherwise |
| TransactionService.CartError | backend/pos_app/services/transaction_service.py:35-50 | no error exactly when every line passes; otherwise the error of the first failing line |
| TransactionService.CartErrorPrefix | backend/pos_app/services/transaction_service.py:35-40 | a failure within a prefix of the cart is the failure of the whole cart |
| TransactionService.PrepareLine | backend/pos_app/services/transaction_service.py:42-50 | the prepared line has the item's price and subtotal price times quantity |
| TransactionService.Lines | backend/pos_app/services/transaction_service.py:78-85 | one transaction line per cart line, in order, with the transaction, item, quantity, unit price and subtotal |
| TransactionService.ReduceAll | backend/pos_app/services/transaction_service.py:86-87 | the stock reductions keep the table's length and keep non-negative stock non-negative |
| TransactionService.FindCoupon | backend/pos_app/services/transaction_service.py:56 | the lookup returns a coupon with that code, and none exactly when there is none |
| TransactionService.AppliedCoupon | backend/pos_app/services/transaction_service.py:52-61 | a coupon applies exactly when a non-empty code names a stored coupon that is valid now |
| TransactionService.WithTax | backend/pos_app/services/transaction_service.py:63-65 | the total is the amount plus 6% of it |
| TransactionService.SaleTotal | backend/pos_app/services/transaction_service.py:52-65 | without a coupon the total is the taxed subtotal; with a well-formed one it lies between 0 and that |
| TransactionService.SaleRecord | backend/pos_app/services/transaction_service.py:68-75 | a Sale with no customer, the default tax rate and the computed total; discount_applied and the stored code only when the coupon applied |
| TransactionService.Repeat | backend/pos_app/services/transaction_service.py:146-152 | n copies of the pending rental |
| TransactionService.PendingRentals | backend/pos_app/services/transaction_service.py:142-152 | every queued rental is for the customer, dated today and due in 7 days |
| TransactionService.RentalRows | backend/pos_app/services/transaction_service.py:179-184 | one rental row per queued rental, in order |
| TransactionService.RentalRecord | backend/pos_app/services/transaction_service.py:158-165 | a Rental for the customer with the taxed subtotal, the default tax rate, no discount and no coupon |
| TransactionService.ActiveMatching | backend/pos_app/services/transaction_service.py:215-219 | exactly the customer's unreturned rentals of the listed items, each once, newest first |
| TransactionService.ReturnAll | backend/pos_app/services/transaction_service.py:224-227 | the chosen rentals are marked returned today, all others are unchanged |
| TransactionService.RestockAll | backend/pos_app/services/transaction_service.py:226-229 | each item's stock grows by the number of its returned rentals |
| TransactionService.RequestError | backend/pos_app/services/transaction_service.py:30-40 | EmployeeNotFound for an unknown employee, otherwise the cart's first error |
| TransactionService.CheckCart | backend/pos_app/services/transaction_service.py:34-50 | the validation loop fails with the cart's first error, or returns the prepared lines and the subtotal |
| TransactionService.WriteLines | backend/pos_app/services/transaction_service.py:77-87 | appends the lines and applies the stock reductions, nothing else |
| TransactionService.CreateSale | backend/pos_app/services/transaction_service.py:16-96 | fails with no change exactly on an unknown employee or a failing line; otherwise appends the sale record, its lines and one audit entry, and reduces the stock; keeps the database valid and stock non-negative |
| TransactionService.CommitSale | backend/pos_app/services/transaction_service.py:67-94 | the writes of a checked sale: the record, the lines, the stock reduction and the audit entry; keeps the database valid |
| TransactionService.SaleKeepsValid | backend/pos_app/services/transaction_service.py:67-94 | the sale's writes keep legacy ids unique and every foreign key pointing at an existing row |
| TransactionService.CheckRentalCart | backend/pos_app/services/transaction_service.py:124-152 | the rental validation loop fails with the first error, or returns the prepared lines, the subtotal and the queued rentals |
| TransactionService.QueueRentals | backend/pos_app/services/transaction_service.py:142-152 | the queueing loop yields one pending rental per unit of each cart line, in cart order |
| TransactionService.QueueUnits | backend/pos_app/services/transaction_service.py:146-152 | the inner loop appends one pending rental per unit |
| TransactionService.WriteRentals | backend/pos_app/services/transaction_service.py:179-184 | appends one rental row per queued rental, nothing else |
| TransactionService.CreateRental | backend/pos_app/services/transaction_service.py:98-193 | fails with no change on an unknown employee or a failing line; otherwise gets or creates the customer and appends the record, lines, one rental per unit and one audit entry, reducing stock; keeps the database valid |
| TransactionService.CommitRental | backend/pos_app/services/transaction_service.py:158-191 | the writes of a checked rental; keeps the database valid |
| TransactionService.RentalRowsStored | backend/pos_app/services/transaction_service.py:179-184 | the new rental rows point at existing items, the customer and the transaction |
| TransactionService.PendingRentalItems | backend/pos_app/services/transaction_service.py:142-152 | every queued rental names an item of the cart |
| TransactionService.ProcessReturn | backend/pos_app/services/transaction_service.py:195-232 | CustomerNotFound for an unknown phone and NoActiveRentals when nothing matches, with no change; otherwise marks every matching rental returned today, restocks one unit each and returns them |
| TransactionService.ReturnEach | backend/pos_app/services/transaction_service.py:226-230 | the return loop marks the rentals returned and restocks their items, nothing else |
| TransactionService.ReturnKeepsValid | backend/pos_app/services/transaction_service.py:224-227 | returning keeps every rental's foreign keys valid |
| EngineProperties.LastQuantity | backend/pos_app/services/transaction_service.py:86-87 | the quantity of the last cart line for an item, none when the item is absent |
| EngineProperties.ReduceAllLastWins | backend/pos_app/services/transaction_service.py:78-87 | each item's stock after a sale is its loaded stock minus the last line's quantity for it, because each reduction saves the same loaded snapshot |
| EngineProperties.StockAfterDistinctCart | backend/pos_app/services/transaction_service.py:78-87 | with distinct items in the cart, each item's stock drops by its cart quantity and items not in the cart are unchanged |
| EngineProperties.LostUpdate | backend/pos_app/services/transaction_service.py:35-87 | a cart naming an item twice (2 then 3 units out of 5) passes the check but leaves stock 2, not 0 |
| EngineProperties.LinesAddUp | backend/pos_app/services/transaction_service.py:42-43 | the line subtotals add up to the running total |
| EngineProperties.RecordsValid | backend/pos_app/models/transaction.py:19 | the sale and rental transaction rows the engine writes meet the `total_amount` validator when the subtotal is non-negative and an applied coupon meets its validators |
| EngineProperties.SaleTotalExamples | backend/pos_app/services/transaction_service.py:52-65 | 2 units at 10.0 give 21.2, and 19.08 with a valid 10% coupon; an unknown code gives 21.2 |
| EngineProperties.PendingCounts | backend/pos_app/services/transaction_service.py:142-152 | one pending rental per unit in the cart, per item |
| EngineProperties.RentalRowContents | backend/pos_app/services/transaction_service.py:179-184 | each rental row belongs to the transaction and customer, starts today, is due in 7 days and is not returned or overdue |
| EngineProperties.RowsActive | backend/pos_app/services/transaction_service.py:179-184 | the new rows add one active rental per queued unit of each item |
| EngineProperties.RentalConservesStock | backend/pos_app/services/transaction_service.py:98-193 | with distinct items, stock plus active rentals of each item is the same before and after a rental |
| EngineProperties.ReturnCounts | backend/pos_app/services/transaction_service.py:226-229 | returning the chosen rentals lowers each item's active count by exactly its returned units |
| EngineProperties.ReturnConservesStock | backend/pos_app/services/transaction_service.py:195-232 | stock plus active rentals of each item is the same before and after a return |
| EngineProperties.ReturnTwiceFindsNothing | backend/pos_app/services/transaction_service.py:215-222 | after a return the same request matches no active rental, so a repeat raises |
| EngineProperties.ReturnTakesAllOfItem | backend/pos_app/services/transaction_service.py:215-230 | naming an item returns every active rental of that item the customer has |
| RentalService.CustomerRentals | backend/pos_app/services/rental_service.py:11-15 | none for an unknown phone; otherwise exactly the customer's rentals, each once, newest first |
| RentalService.ActiveRentals | backend/pos_app/services/rental_service.py:17-21 | none for an unknown phone; otherwise exactly the customer's unreturned rentals, newest first |
| RentalService.OverdueRentals | backend/pos_app/services/rental_service.py:23-35 | every overdue rental when no phone is given, that customer's overdue rentals otherwise, earliest due first; none for an unknown phone |
| RentalService.HasOutstandingReturns | backend/pos_app/services/rental_service.py:37-40 | true exactly when the customer has an unreturned rental, i.e. their active list is non-empty |
| RentalService.OverdueWithinActive | backend/pos_app/services/rental_service.py:11-35 | a customer's overdue rentals are among their active ones, which are among all of theirs |
| InventoryService.AllItems | backend/pos_app/services/inventory_service.py:11-13 | every item once, ordered by legacy id |
| InventoryService.ItemByLegacyId | backend/pos_app/services/inventory_service.py:20-23 | a row with that legacy id, none exactly when there is none |
| InventoryService.ItemByLegacyIdUnique | backend/pos_app/services/inventory_service.py:20-23 | with unique legacy ids the lookup finds the one row holding it |
| InventoryService.SearchItems | backend/pos_app/services/inventory_service.py:25-32 | exactly the items whose name, or whose legacy id written in decimal, contains the query ignoring case; each once, ordered by legacy id |
| InventoryService.LowerIdempotent | backend/pos_app/services/inventory_service.py:29 | lower-casing twice is lower-casing once |
| InventoryService.SearchIgnoresCase | backend/pos_app/services/inventory_service.py:25-32 | a query and its lower-case form find the same items, and the empty query finds them all |
| InventoryService.CheckAvailability | backend/pos_app/services/inventory_service.py:42-46 | none for an unknown id, otherwise whether the stock covers the request |
| InventoryService.UpdateItemQuantity | backend/pos_app/services/inventory_service.py:34-40 | none with no change for an unknown id; otherwise only that item's stock becomes the new quantity, and availability then follows it |
| EmployeeService.FindActive | backend/pos_app/services/employee_service.py:19 | an active employee with that username, none exactly when there is none |
| EmployeeService.AuthenticatedId | backend/pos_app/services/employee_service.py:10-30 | a result is an active employee with that username whose password checks; no such employee gives none |
| EmployeeService.AuthenticatedExactly | backend/pos_app/services/employee_service.py:10-30 | with unique usernames, authentication returns employee k exactly when k is active, has the username and the password checks |
| EmployeeService.AllEmployees | backend/pos_app/services/employee_service.py:105-108 | exactly the active employees, each once |
| Storage.RowById | backend/pos_app/services/employee_service.py:110-113 | the row with that id, none exactly when no row has it; `get_employee_by_id`, and likewise `get_item_by_id` (inventory_service.py:15-18) and `get_rental_by_id` (rental_service.py:42-45) |
| EmployeeService.SettingsKeepHash | backend/pos_app/services/employee_service.py:74-76 | settings that do not name the hash leave the stored hash alone |
| EmployeeService.UpdatedPasswordHashed | backend/pos_app/services/employee_service.py:71-76 | a password passed to an update is stored hashed, and exactly it checks afterwards |
| EmployeeService.UnknownIgnored | backend/pos_app/services/employee_service.py:75 | a setting naming no attribute changes nothing |
| EmployeeService.Authenticate | backend/pos_app/services/employee_service.py:10-30 | returns the authenticated id; a login appends exactly one audit entry, a failure changes nothing |
| EmployeeService.Logout | backend/pos_app/services/employee_service.py:32-43 | an existing employee gets one logout audit entry; an unknown id changes nothing |
| EmployeeService.CreateEmployee | backend/pos_app/services/employee_service.py:45-64 | a taken username fails with no change; otherwise appends the employee with the hashed password and one audit entry |
| EmployeeService.UpdateEmployee | backend/pos_app/services/employee_service.py:66-87 | an unknown id or a clashing username fails with no change; otherwise replaces that row with the updated employee and logs it |
| EmployeeService.DeleteEmployee | backend/pos_app/services/employee_service.py:89-103 | an unknown id fails with no change; otherwise only that employee becomes inactive, with one audit entry |
| EmployeeService.DeletedCannotAuthenticate | backend/pos_app/services/employee_service.py:89-108 | a deactivated employee can no longer log in and leaves the active list, which is otherwise unchanged |
| TransactionSerializer.EntryError | backend/pos_app/serializers/transaction_serializer.py:50-54 | an entry missing a key is refused for that; a non-positive quantity for that; otherwise it passes |
| TransactionSerializer.FirstEntryError | backend/pos_app/serializers/transaction_serializer.py:48-55 | no error exactly when every entry passes; otherwise the first failing entry's error |
| TransactionSerializer.ValidateItems | backend/pos_app/serializers/transaction_serializer.py:48-55 | the loop returns the items unchanged when all pass, else the first entry's error |
| TransactionSerializer.ItemsFieldError | backend/pos_app/serializers/transaction_serializer.py:40-55 | a missing list, an empty list, or the first failing entry; no error exactly when the list is non-empty and every entry passes |
| TransactionSerializer.ToCart | backend/pos_app/serializers/transaction_serializer.py:40-45 | each valid entry becomes the cart line with its id and a positive quantity |
| TransactionSerializer.ValidateSale | backend/pos_app/serializers/transaction_serializer.py:38-55 | accepted exactly when the items pass; the cart carries them and the coupon code is stripped or absent |
| TransactionSerializer.PhoneFieldError | backend/pos_app/serializers/transaction_serializer.py:60 | the phone passes exactly when present, non-blank after stripping and at most 15 characters |
| TransactionSerializer.ValidateRental | backend/pos_app/serializers/transaction_serializer.py:58-75 | accepted exactly when phone and items pass; otherwise every failing field is reported; the phone is stripped |
| Migration.Words | scripts/migrate_data.py:29-33 | a line has no words exactly when it is blank, and every word is non-empty without whitespace |
| Migration.Body | scripts/migrate_data.py:109 | the lines after the header |
| Migration.NonBlank | scripts/validate_migration.py:20-30 | the count of non-blank lines is at most the count of lines |
| Migration.EmployeeLine | scripts/migrate_data.py:29-41 | a line of fewer than five words is skipped; otherwise its first word is the username |
| Migration.WordsOfJoined | scripts/migrate_data.py:29-33 | splitting space-joined words, with or without a trailing newline, gives the words back |
| Migration.EmployeeLineRoundTrip | scripts/migrate_data.py:33-41 | parsing the text of an employee record gives the record back |
| Migration.MigrateEmployees | scripts/migrate_data.py:23-60 | the loop's employees and audit log are those of the step-by-step migration |
| Migration.HasUsernameGrows | scripts/migrate_data.py:44-46 | a stored username stays stored as rows are appended |
| Migration.EmployeesMigrated | scripts/migrate_data.py:23-60 | only appends, and afterwards every parsed line's username is stored |
| Migration.StoredUsernamesSkipped | scripts/migrate_data.py:44-46 | when every username is stored already the migration changes nothing |
| Migration.EmployeeMigrationIdempotent | scripts/migrate_data.py:23-60 | running the employee migration twice equals running it once |
| Migration.EmployeesAddedBound | scripts/migrate_data.py:23-60 | at most one employee per non-blank line, and one audit entry per employee added |
| Migration.ItemLine | scripts/migrate_data.py:73-81 | a line parses exactly when it has four words whose id, price and quantity parse, and the item holds them |
| Migration.ItemLineRoundTrip | scripts/migrate_data.py:73-81 | parsing an item's text gives the item back |
| Migration.MigrateItems | scripts/migrate_data.py:63-98 | the loop's items are those of the step-by-step migration; nothing else changes |
| Migration.ReadItems | scripts/migrate_data.py:67-96 | the loop over the lines yields the step-by-step migrated items, keeps legacy ids unique and only appends |
| Migration.HasLegacyIdGrows | scripts/migrate_data.py:84-86 | a stored legacy id stays stored as rows are appended |
| Migration.ItemsMigrated | scripts/migrate_data.py:63-98 | only appends, and afterwards every parsed line's legacy id is stored |
| Migration.StoredItemsSkipped | scripts/migrate_data.py:84-86 | when every legacy id is stored already the migration changes nothing |
| Migration.ItemMigrationIdempotent | scripts/migrate_data.py:63-98 | running the item migration twice equals running it once |
| Migration.ItemsAddedBound | scripts/migrate_data.py:63-98 | at most one item per non-blank line |
| Migration.EntryRental | scripts/migrate_data.py:128-163 | an entry becomes a rental exactly when it has three fields and names a stored legacy item; the rental is saved, for the customer, dated by the parsed date or today, returned iff the flag reads true, and overdue-marked iff overdue (corrected migration; see Findings) |
| Migration.EntryRentalsStored | scripts/migrate_data.py:128-167 | at most one rental per entry, each for the customer and with valid foreign keys (corrected migration; see Findings) |
| Migration.ReadEntries | scripts/migrate_data.py:128-167 | the entry loop yields exactly the entries' rentals, in order (corrected migration; see Findings) |
| Migration.MigrateCustomersAndRentals | scripts/migrate_data.py:101-170 | the customers and rentals are those of the line-by-line migration after the header (corrected migration; see Findings) |
| Migration.ReadUsers | scripts/migrate_data.py:107-167 | the loop over the lines yields the line-by-line migrated customers and rentals, keeping phones unique and rental keys valid (corrected migration; see Findings) |
| Migration.ReadUserLine | scripts/migrate_data.py:112-167 | one line gets or creates its customer and appends its rentals, keeping phones unique and rental keys valid (corrected migration; see Findings) |
| Migration.UserStepCustomers | scripts/migrate_data.py:112-125 | a blank line leaves the customers; any other gets or creates the customer of its first word |
| Migration.UserStepRentals | scripts/migrate_data.py:127-163 | a line appends the rentals of its further words, for the customer of its first word (corrected migration; see Findings) |
| Migration.UserStepGrows | scripts/migrate_data.py:112-163 | a line only appends customers and rentals, and afterwards its phone has a customer |
| Migration.EntryRentalsAll | scripts/migrate_data.py:128-163 | when every entry has three fields and names a stored item, each gives exactly one rental |
| Migration.InsertDeclared | scripts/migrate_data.py:153-165 | inserting into the rentals table as declared keeps exactly the rows that carry a transaction |
| Migration.NoLegacyInserted | scripts/migrate_data.py:153-165 | no legacy rental, which carries no transaction, gets into the declared table |
| Migration.UserStepAsWritten | scripts/migrate_data.py:112-167 | one line as written: the customers of the corrected step, and the rentals table unchanged |
| Migration.MigratedUsersAsWritten | scripts/migrate_data.py:101-170 | the customer step as written: the customers of the corrected migration, and no rental stored |
| Migration.AsWrittenIdempotent | scripts/migrate_data.py:101-170 | as written, running the customer step twice equals running it once |
| Migration.CustomersMigrated | scripts/migrate_data.py:101-170 | only appends, and afterwards every line's phone is stored |
| Migration.StoredPhonesKept | scripts/migrate_data.py:120-123 | when every phone is stored already no customer is added |
| Migration.CustomerMigrationIdempotent | scripts/migrate_data.py:101-170 | a second run adds no customer (in the corrected migration the legacy rentals are added again) |
| Migration.CouponLine | scripts/migrate_data.py:179-193 | a blank line is skipped; otherwise the stripped line is the code of an active, non-expiring 10% coupon |
| Migration.MigrateCoupons | scripts/migrate_data.py:173-198 | the loop's coupons are those of the step-by-step migration |
| Migration.ReadCoupons | scripts/migrate_data.py:177-196 | the loop over the lines yields the step-by-step migrated coupons, keeps codes unique and only appends |
| Migration.CouponsMigrated | scripts/migrate_data.py:173-198 | only appends, and afterwards every line's code is stored |
| Migration.StoredCodesSkipped | scripts/migrate_data.py:184-186 | when every code is stored already the migration changes nothing |
| Migration.CouponMigrationIdempotent | scripts/migrate_data.py:173-198 | running the coupon migration twice equals running it once |
| Migration.CouponsAddedBound | scripts/migrate_data.py:173-198 | at most one coupon per non-blank line |
| Migration.Migrate | scripts/migrate_data.py:201-261 | nothing happens without the legacy directory; otherwise each step runs in order exactly when its file exists; the customer step is the corrected one (see Findings) |
| MigrationValidation.CountLegacyFileLines | scripts/validate_migration.py:20-30 | a missing file counts 0; otherwise the non-blank lines |
| MigrationValidation.CountLines | scripts/validate_migration.py:20-30 | the counting loop computes the non-blank line count |
| MigrationValidation.FirstWordOf | scripts/validate_migration.py:95-104 | a blank line contributes no phone, any other line its first word |
| MigrationValidation.LegacyPhonesMembers | scripts/validate_migration.py:95-104 | a phone is in the legacy set exactly when it is some line's first word |
| MigrationValidation.LineOfPhone | scripts/validate_migration.py:95-104 | a phone in the legacy set is the first word of some line |
| MigrationValidation.PhoneOfLine | scripts/validate_migration.py:95-104 | every line's first word is in the legacy set |
| MigrationValidation.CollectPhones | scripts/validate_migration.py:95-104 | the loop collects the set of phones of the lines after the header |
| MigrationValidation.CountRentalEntries | scripts/validate_migration.py:130-138 | the loop counts the rental entries of the lines after the header |
| MigrationValidation.NegativePriceCount | scripts/validate_migration.py:189-192 | zero exactly when no price is negative |
| MigrationValidation.NegativeQuantityCount | scripts/validate_migration.py:194-197 | zero exactly when no quantity is negative |
| MigrationValidation.IntegrityIssues | scripts/validate_migration.py:178-215 | no issue exactly when every item's fields are valid; each reported issue counts at least one row |
| MigrationValidation.Passed | scripts/validate_migration.py:245 | every check passed exactly when the count equals the number of checks |
| MigrationValidation.ExitCode | scripts/validate_migration.py:254-259 | 0 exactly when all six checks pass, 1 otherwise |
| MigrationValidation.Summarize | scripts/validate_migration.py:245-259 | the summary loop yields the exit code, 0 exactly when all checks pass |
| MigrationValidation.Validate | scripts/validate_migration.py:218-259 | the customer check passes exactly when there are at least as many customers as legacy phones; integrity exactly when all items are valid |
| MigrationValidation.PhoneSetSize | scripts/validate_migration.py:106-110 | with unique phones the set of phones is as large as the table |
| MigrationValidation.GetOrCreatePhones | scripts/migrate_data.py:123 | get-or-create adds exactly the phone to the set of phones |
| MigrationValidation.MigratedPhones | scripts/migrate_data.py:113-123 | migration adds exactly the legacy phones, keeping them unique |
| MigrationValidation.UserStepPhones | scripts/migrate_data.py:112-123 | one line adds exactly its first word to the phones, keeping them unique |
| MigrationValidation.CustomersValidatedAfterMigration | scripts/validate_migration.py:83-115 | after migrating customers from any unique start, the customer check passes |
| MigrationValidation.MigratedRentalsBound | scripts/validate_migration.py:118-150 | migration adds at most one rental per legacy entry |
| MigrationValidation.UserStepRentalsBound | scripts/migrate_data.py:127-163 | one line adds at most one rental per entry it holds |
| MigrationValidation.UserStepRentalsExact | scripts/migrate_data.py:127-163 | a line whose entries all name stored items adds exactly one rental per entry |
| MigrationValidation.MigratedRentalsExact | scripts/validate_migration.py:118-150 | the corrected migration stores one rental per legacy entry when every entry names a stored item |
| MigrationValidation.RentalCheckAsWrittenAndIntended | scripts/validate_migration.py:118-150 | from no rentals, the rental check fails as written for any file with an entry, and passes for the corrected migration when every entry names a stored item |
| MigrationValidation.NoItemsNoRentals | scripts/migrate_data.py:146-163 | without items no entry becomes a rental |
| MigrationValidation.EntriesWithoutItemsFailValidation | scripts/validate_migration.py:145 | migrating rentals before their items leaves none, and the rental check fails |
| MigrationValidation.OneLineNoItems | scripts/validate_migration.py:130-138 | one line after the header counts its words after the first as entries, and without items gives no rental |
| MigrationValidation.OneLineNoRentals | scripts/migrate_data.py:146-163 | one line read while no item is stored gives no rental |
| MigrationValidation.CountsValidatedExactly | scripts/validate_migration.py:33-175 | migrating into an empty table, the employee, item and coupon checks pass exactly when one row was added per non-blank line |
| Cart.FindById | frontend/src/components/Sales.js:44 | the cart line with that id, none exactly when absent |
| Cart.FindByIdAt | frontend/src/components/Sales.js:44 | with unique ids, the lookup returns the line at its position |
| Cart.Remove | frontend/src/components/Sales.js:62-64 | removing keeps exactly the other lines; the id is gone; a cart without it is unchanged (also Rentals.js:65-67) |
| Cart.RemoveKeepsUnique | frontend/src/components/Sales.js:62-64 | removing keeps ids unique |
| Cart.RemoveAppended | frontend/src/components/Sales.js:55-64 | removing a line just appended gives the cart back |
| Cart.AppendFinds | frontend/src/components/Sales.js:55-57 | an appended line is found by its id, other ids are unaffected |
| Cart.SetQuantity | frontend/src/components/Sales.js:74-78 | each line with the id gets the new quantity, the rest are unchanged |
| Cart.Bump | frontend/src/components/Sales.js:48-52 | each line with the id gets one more unit, the rest are unchanged |
| Cart.UpdateQuantity | frontend/src/components/Sales.js:66-79 | a non-positive quantity removes the line; more than the listed stock is refused; otherwise that line's quantity becomes the new one; other lines are unaffected (also Rentals.js:69-82) |
| Cart.RemoveOthers | frontend/src/components/Sales.js:62-64 | removing one id leaves the others' lookups unchanged |
| Cart.SetQuantityFinds | frontend/src/components/Sales.js:74-78 | after setting, the line found has the new quantity, others unchanged |
| Cart.BumpFinds | frontend/src/components/Sales.js:48-52 | after a bump, the line found has one more unit, others unchanged |
| Cart.BumpFindsSame | frontend/src/components/Sales.js:48-52 | after a bump, the id finds its first line with one more unit, or nothing when absent |
| Cart.BumpFindsOther | frontend/src/components/Sales.js:48-52 | a bump leaves what every other id finds unchanged |
| Cart.SameIds | frontend/src/components/Sales.js:44-78 | setting or bumping a quantity keeps ids unique |
| Cart.Payload | frontend/src/components/Sales.js:99-102 | one item dict per cart line with its id and quantity |
| Cart.PayloadAccepted | frontend/src/components/Sales.js:99-102 | a non-empty payload of positive quantities passes the server's items validation and reaches the engine with the same ids and quantities |
| SalesScreen.AddToCart | frontend/src/components/Sales.js:38-60 | refused for no stock, or when the cart already wants all of it; otherwise that item wants one more unit (a new one is appended) and other lines are unaffected |
| SalesScreen.AddThenRemove | frontend/src/components/Sales.js:38-64 | adding a new item then removing it gives the cart back |
| SalesScreen.AddKeepsInvariant | frontend/src/components/Sales.js:38-60 | adding a listed item keeps ids unique, quantities positive and within listed stock |
| SalesScreen.UpdateKeepsInvariant | frontend/src/components/Sales.js:66-79 | changing a quantity keeps the same invariant |
| SalesScreen.Checkout | frontend/src/components/Sales.js:91-102 | an empty cart is refused with the empty-cart notice, and only it; otherwise sends the payload of every line and the coupon code itself, an empty code as none |
| SalesScreen.CheckoutAccepted | frontend/src/components/Sales.js:91-102 | what checkout sends from a well-formed cart passes the server's sale validation |
| RentalsScreen.AddToCart | frontend/src/components/Rentals.js:48-63 | refused only for no stock; otherwise that item wants one more unit, unchecked against stock |
| RentalsScreen.AddKeepsShape | frontend/src/components/Rentals.js:48-63 | adding keeps ids unique and quantities positive |
| RentalsScreen.AddCanExceedStock | frontend/src/components/Rentals.js:53-59 | one tent in stock and one in the cart: adding again wants two, more than the stock |
| RentalsScreen.LineProblem | frontend/src/components/Rentals.js:112-125 | a line passes exactly when its item is listed with enough stock; otherwise ItemNotFound or InsufficientStock with the numbers |
| RentalsScreen.FirstCartProblem | frontend/src/components/Rentals.js:112-125 | no problem exactly when every line passes; otherwise the first failing line's notice |
| RentalsScreen.Checkout | frontend/src/components/Rentals.js:84-136 | sends exactly when the phone is 10-15 digits, the cart is non-empty and every line is covered; otherwise InvalidPhone, CartEmpty or the first line's notice, in that order |
| RentalsScreen.CheckoutAccepted | frontend/src/components/Rentals.js:99-136 | what checkout sends passes the server's rental validation, with the phone unchanged |
| RentalsScreen.PhoneInput | frontend/src/components/Rentals.js:251-255 | the field keeps only digits, so it is valid exactly when 10-15 long |
| ReturnsScreen.Search | frontend/src/components/Returns.js:13-17 | a phone shorter than ten characters is refused, otherwise searched as typed |
| ReturnsScreen.Without | frontend/src/components/Returns.js:72 | the selection without the id, and unchanged when it was absent |
| ReturnsScreen.Toggle | frontend/src/components/Returns.js:70-76 | flips whether the id is selected, leaving the other ids |
| ReturnsScreen.ToggleTwice | frontend/src/components/Returns.js:70-76 | toggling an unselected id twice restores the selection exactly |
| ReturnsScreen.ToggleTwiceSelected | frontend/src/components/Returns.js:70-76 | toggling a selected id twice keeps the same ids selected |
| ReturnsScreen.ItemIdsToReturn | frontend/src/components/Returns.js:48-50 | exactly the item ids of the selected rentals, at most one per listed rental |
| ReturnsScreen.Return | frontend/src/components/Returns.js:39-52 | an empty selection is refused; otherwise sends the phone and the selected rentals' item ids |
| ReturnsScreen.SelectingOneReturnsAll | frontend/src/components/Returns.js:48-52 | selecting one rental of an item returns every active rental of that item the customer has |
| ReturnsScreen.SelectingOneReturnsBoth | frontend/src/components/Returns.js:48-52 | two active rentals of one item, one selected: both are returned |

## Left out

- Floating point and `Decimal`. Money is `real`, so there is no 2-decimal
  rounding, no `max_digits`, and no float conversion in
  `Coupon.apply_discount` (coupon.py:45).
- `Transaction.calculate_total_with_tax` (transaction.py:39-41) and the
  serializer's `get_total_with_tax` (transaction_serializer.py:33-35) are
  left out. Both are float display helpers that the engine never calls.
- `DEFAULT_DISCOUNT` (transaction_service.py:14) is left out: the engine
  never uses it.
- Date parsing (`strptime`), price parsing (`float`) and password hashing
  (`make_password` / `check_password`) are parameters. They are outside code
  that is not part of this model.
- Unicode:
  - `Text.Lower` folds only ASCII;
  - whitespace is the full set Python's `str.isspace()` accepts;
  - `int()` is parsed as an optional sign then ASCII digits, without
    underscores or other Unicode digits.
- Customers.PhoneAcceptedAsWritten: models `\d` as the ASCII digits 0-9.
  Python's `re` on a `str` also matches every other Unicode decimal digit
  (Arabic-Indic or fullwidth digits, say), so the validator as written also
  accepts such phones; the model does not capture that.
- Column `max_length` limits: the 15-character phone limit is checked only
  by the phone validator (`Customers.PhoneAcceptedAsWritten`) and the rental
  serializer (`TransactionSerializer.PhoneFieldError`), not by storage; no
  other limit is modelled.
- Migration.UserStep: a phone token longer than 15 characters is stored and
  the run goes on. In the script, `get_or_create` (migrate_data.py:123) runs
  outside any `try`, so PostgreSQL's refusal of the over-long value reaches
  the `except` of `main` (migrate_data.py:258) and ends the run.
- Migration.Migrate: does not capture that abort: after an over-long phone
  the script skips the rest of the user file and the whole coupon step,
  while the model completes both.
- Migration.MigrateEmployees: a username over 50 characters is stored,
  while the script's insert fails inside the line's `try` and the line is
  skipped.
- Migration.MigrateItems: likewise stores an item name over 200 characters,
  which the script skips.
- Migration.MigrateCoupons: likewise stores a coupon code over 50
  characters, which the script skips.
- Model `__str__` methods, timestamps (`created_at`, `updated_at`) and audit
  IP addresses are left out.
- Queryset order (the `Meta.ordering` lines) is handled this way:
  - for rentals and items it is modelled;
  - `EmployeeService.AllEmployees`: does not state the order by username
    (employee.py:24), only which rows are returned.
- Concurrency is left out. Each engine call runs alone, as under
  `transaction.atomic`, and no two calls interleave.
- Exceptions are handled this way:
  - The migration steps' broad `except` clauses: two failures are modelled,
    a line that does not parse and a legacy rental refused by the NOT NULL
    `transaction` column (see Findings). No other database error occurs in
    the model.
  - A raised exception is a `Failure` result with the database unchanged.
- HTTP views, routing, permissions, the React rendering, axios calls, timers,
  and `print` / logging output are not part of this model.
- `Sales.js` and `Rentals.js` share one `removeFromCart` and one
  `updateQuantity`, and the model keeps a single copy, `Cart.Remove` and
  `Cart.UpdateQuantity`. The screens' running totals (Sales.js:81-89) are
  left out with the rest of the money display.
- `Rental.transaction` is an `Option`, as the corrected migration needs: it
  stores legacy rentals without a transaction, which the column as declared
  (rental.py:12) refuses. `Migration.InsertDeclared` models that refusal.
  Every rental the engine writes carries its transaction
  (`EngineProperties.RentalRowContents`).
- The engine does not check `quantity > 0` itself; the serializer does.
  `TransactionService.CreateSale` and `TransactionService.CreateRental`
  follow the code: with a non-positive quantity the check passes and the
  stock goes up. `EngineProperties.RentalConservesStock` assumes positive
  quantities, as the serializer guarantees.
- `process_return` writes no Return transaction and no audit entry. The
  model follows the code; a design that would record returns is not
  modelled.
- `validate_data_integrity`'s null checks (validate_migration.py:184-187 and 199-207)
  are left out: every model field is non-null by type.
- MigrationValidation.Validate: does not state the employee, item, coupon and rental checks
  beyond how they are defined. `MigrationValidation.CountsValidatedExactly`
  and `MigrationValidation.EntriesWithoutItemsFailValidation` relate those
  checks to the migration.
- The migration methods build each table's new rows in memory from the file
  and store the table once (`Migration.ReadItems`, `Migration.ReadUsers`,
  `Migration.ReadCoupons`). The script instead saves row by row; since no
  other code runs in between, the rows stored are the same.
- `Migration.CustomerMigrationIdempotent`: states idempotence for the
  customers only. In the corrected migration a second run appends the
  legacy rentals again, since the code has no check against duplicates. As
  written no rental is ever stored, and `Migration.AsWrittenIdempotent`
  states idempotence for the whole step.
- Migration.EntryRental: states the corrected migration, which stores the
  entry's rental without a transaction; as written the insert is refused
  (`Migration.MigratedUsersAsWritten`, see Findings).
- Migration.EntryRentalsStored: states the rows of the corrected migration;
  as written none of them is stored.
- Migration.ReadEntries: collects the rentals of the corrected migration;
  as written none of them is stored.
- Migration.UserStepRentals: states the rentals the corrected step appends;
  as written the step appends none (`Migration.UserStepAsWritten`).
- Migration.ReadUserLine: appends the rentals of the corrected step; as
  written none is appended.
- Migration.ReadUsers: accumulates the rentals of the corrected migration;
  as written none is stored.
- Migration.MigrateCustomersAndRentals: writes the rentals of the corrected
  migration; as written the rentals table is unchanged.
- Migration.Migrate: runs the corrected customer step; as written that step
  stores no rental.

## Findings

| source | as written | input that shows it | evidently intended | confidence | as-written member | corrected member |
|---|---|---|---|---|---|---|
| backend/pos_app/models/customer.py:9 | the pattern `^\d{10,15}$` under Python's `re`, where `$` also matches before a final newline | "1234567890\n" (11 characters, within max_length 15) passes the validator | a phone of 10 to 15 digits and nothing else, as the front end's identical JavaScript pattern (Rentals.js:99) means | not executed | Customers.PhoneAcceptedAsWritten (shown by Customers.TrailingNewlineAccepted) | Customers.PhoneValid |
| scripts/migrate_data.py:153-161 | `Rental.objects.create(..., transaction=None)`, while rental.py:12 declares `transaction` as a foreign key without `null=True`; each insert fails the NOT NULL constraint, and the `except` at :164-165 swallows the error | a user file whose line `5551234567 7,01/15/24,false` names a migrated item 7: the customer is created, no rental is stored, and the rental check at validate_migration.py:145 fails (0 of 1 entries) | legacy rentals stored without a transaction, as the comment at :149 says and the 90% check at validate_migration.py:145 expects; this needs the column to be nullable | not executed | Migration.MigratedUsersAsWritten (shown by MigrationValidation.RentalCheckAsWrittenAndIntended) | Migration.MigratedUsers (with MigrationValidation.MigratedRentalsExact) |
