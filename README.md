# Tenant ledger of PropertyManagerSample, in Dafny

This project models the tenant ledger of a small property-management program. The ledger
serves two front ends:

- a console program (`org.core.PropertyManager`);
- a JavaFX screen (`gui.TenantManager`).

Each building has one `tenants` table. A row holds:

- a name and an apartment number;
- the lease start and lease end dates;
- the security deposit, the monthly rent and the outstanding balance;
- twelve per-month `<mon>_paid` amounts, each defaulting to 0.

The front ends work on that table as follows:

- **Add a tenant.** The balance is seeded as rent times the whole months elapsed since the lease-start month.
- **Record a payment.** One month column goes up and the balance goes down by the same amount.
- **Raise one tenant's rent** by a percentage.
- **Edit columns.** One column from the console, six from the form. The balance is never recomputed.
- **Delete a tenant** picked from a numbered list or from the table selection.
- **Export and import as CSV.** Lines are plain comma-separated, with no quoting.

A few pure helpers sit around those operations:

- two reorderings of `MM-DD-YYYY` into `YYYY-MM-DD`;
- the inverse rendering;
- two copies of the unpaid-month count;
- the search filter.

The `Tenant` record class is also modelled.

Files and modules:

| file | module | what it holds |
|---|---|---|
| `wrappers.dfy` | `Wrappers` | `Option` and `Result` |
| `java_text.dfy` | `JavaText` | the Java library behaviour the core depends on: `String.split` (trailing empty pieces dropped), `Integer.parseInt` with its 32-bit range, `%d`, `%02d`, ASCII `toLowerCase`, `contains`, `trim`, 32-bit wrap-around |
| `money.dfy` | `Money` | amounts as exact reals; `Double.parseDouble` on plain decimals; `%.2f` with half-up rounding; the round trip between the two |
| `dates.dfy` | `Dates` | `java.sql.Date.valueOf`, the database's conversion of text to `DATE`, `LocalDate.toString`, `convertDateFormat`, `formatDate`, `formatDateForInput`, both `getUnpaidMonths` |
| `ledger.dfy` | `Store` | the row shape, the per-row updates, the table as a map from id to row with its auto-increment counter, and the class `Ledger` that the front ends update in place |
| `tenant.dfy` | `Tenants` | the `Tenant` class: eight mutable fields, constructor, setters, `toString` |
| `property_manager.dfy` | `PropertyManager` | the console operations: selection, addTenant, recordPayment, deleteTenant, increaseRent, updateTenantField |
| `tenant_manager.dfy` | `Gui` | the JavaFX screen: search filter, refreshTenants, exportToCSV, importFromCSV, the form's result converter, deleteSelectedTenant |

Modelling choices:

- Money is `real`, so the arithmetic is exact.
- `LocalDate.now()` becomes a parameter `today`.
- A `SELECT` without `ORDER BY` lists the rows by increasing id, the order of a scan of the primary key.
- The console's answers and the form's six text fields arrive as parameters.
- A Java exception that ends an operation becomes a `Failure`. The model distinguishes:
  - caught exceptions, reported as invalid input;
  - exceptions that escape the console handler, reported as `Escaped`.
- Dates reach the table in two ways. The console's add and the form go through `java.sql.Date.valueOf`. The console's edit binds the reordered text with `setString`, so the database's own text-to-`DATE` conversion decides; it runs only for a row the `WHERE` clause matches.
- Where the design description and the code differ, the model follows the code. A delete of an id that has no row is silently a no-op.

## Model

| member | source | states |
|---|---|---|
| JavaText.Wrap32 | src/main/java/org/core/PropertyManager.java:514 | the result is a 32-bit int, and equals the input when the input already is one (Java `int` arithmetic) |
| JavaText.SplitOfJoin | src/main/java/org/core/PropertyManager.java:494 | `split` of separator-free pieces joined by the separator, the last piece non-empty, gives back exactly those pieces |
| JavaText.PiecesHaveNoSeparator | src/main/java/gui/TenantManager.java:147 | no piece of a split contains the separator |
| JavaText.ParseIntOfIntToString | src/main/java/gui/TenantManager.java:149 | `Integer.parseInt` reads back the `%d` text of every 32-bit int |
| JavaText.ToLowerIdempotent | src/main/java/gui/TenantManager.java:45 | lowering twice is lowering once |
| JavaText.ContainsLowered | src/main/java/gui/TenantManager.java:46-47 | an occurrence survives lowering both strings |
| JavaText.TrimOfUnpadded | src/main/java/org/core/PropertyManager.java:237 | `trim` leaves a string that neither starts nor ends with a blank unchanged |
| Money.TimesIsProduct | src/main/java/org/core/PropertyManager.java:152 | the balance seed, rent added once per month, is rent times the month count for every non-negative count |
| Money.RoundedIsClose | src/main/java/gui/TenantManager.java:225-228 | the amount `%.2f` shows is within half a cent of the stored one, and equal to it for whole cents |
| Money.Format2HasNoComma | src/main/java/gui/TenantManager.java:225 | `%.2f` text is non-empty and holds no comma, so it stays one CSV field |
| Money.ParseFormat2 | src/main/java/gui/TenantManager.java:154-156 | `Double.parseDouble` of the `%.2f` text yields exactly the rounded amount |
| Money.ParseCentsText | src/main/java/gui/TenantManager.java:154-156 | a sign and a count of hundredths, printed as `%.2f` prints them, parse back to that signed amount |
| Money.ParseAroundPoint | src/main/java/gui/TenantManager.java:154-156 | text with a point parses as the digits before and after its first point |
| Dates.SqlDateValueOf | src/main/java/gui/TenantManager.java:152-153 | every date `valueOf` accepts has a year 0..9999, a month 1..12 and a day 1..31; a refusal is a `NumberFormatException` or an `IllegalArgumentException` and nothing else |
| Dates.SqlDateValueOfJoin | src/main/java/org/core/PropertyManager.java:158-159 | `valueOf` cuts its text at the first two dashes: year before the first, month between, day the whole rest |
| Dates.SqlDateShape | src/main/java/gui/TenantManager.java:152-153 | accepted text is year-month-day with '-'-free parts, which `Integer.parseInt` reads as the date's year, month and day |
| Dates.SqlDateValueOfSigned | src/main/java/org/core/PropertyManager.java:158-159 | a part with a sign is read as `Integer.parseInt` reads it: 2024-+1-05 is 5 January 2024 |
| Dates.SqlDateValueOfNotANumber | src/main/java/org/core/PropertyManager.java:158-159 | a part of the right length that is not a number (2024-01-0a) throws `NumberFormatException` |
| Dates.SqlDateValueOfIllegal | src/main/java/org/core/PropertyManager.java:158-159 | a month past 12 throws `IllegalArgumentException` |
| Dates.SqlDateValueOfShortYear | src/main/java/org/core/PropertyManager.java:158-159 | a year of two characters throws `IllegalArgumentException` |
| Dates.DbDate | src/main/java/org/core/PropertyManager.java:482 | a date the database converts from the bound text is a day on the calendar, with a year that fits an `int` |
| Dates.ValueOfAgreesWithDb | src/main/java/org/core/PropertyManager.java:158-159 | on text `valueOf` accepts, the database's conversion gives the same date when it is on the calendar and refuses it otherwise |
| Dates.DbDateOfConsoleText | src/main/java/org/core/PropertyManager.java:473-482 | a calendar date typed as month-day-year, year 0 or later of any length, is reordered and converted back to that date |
| Dates.DbDateShortYear | src/main/java/org/core/PropertyManager.java:482 | the database reads 24-3-5 as 5 March of the year 24, without widening the year |
| Dates.DbDateOffCalendar | src/main/java/org/core/PropertyManager.java:482 | `valueOf` lets 2024-02-30 through while the database refuses it |
| Dates.ValueOfIsoString | src/main/java/gui/TenantManager.java:152-153 | `valueOf` reads every such date back from its `LocalDate.toString` text |
| Dates.ReorderingsAgree | src/main/java/org/core/PropertyManager.java:492-500 | convertDateFormat succeeds if and only if the text splits into exactly 3 parts; formatDate succeeds if and only if it splits into at least 3; on exactly 3 they agree |
| Dates.ConvertDateFormatReorders | src/main/java/org/core/PropertyManager.java:494-496 | the result's '-' pieces are the input's third, first and second parts; the parts are not checked to be numbers |
| Dates.ReorderThree | src/main/java/org/core/PropertyManager.java:494-496 | `a-b-c` becomes `c-a-b` under both reorderings, for any '-'-free parts, the last non-empty |
| Dates.ReorderingsDisagree | src/main/java/gui/TenantManager.java:310-313 | with a fourth part formatDate drops it while convertDateFormat raises IllegalArgumentException |
| Dates.ConvertExample | src/main/java/org/core/PropertyManager.java:496 | `03-15-2024` becomes `2024-03-15` under both reorderings |
| Dates.FormRoundTrip | src/main/java/gui/TenantManager.java:310-317 | for a four-digit year, reordering the form's `MM-DD-YYYY` rendering gives the ISO text of the date, and `valueOf` reads that text back as the same date |
| Dates.FormLosesShortYear | src/main/java/gui/TenantManager.java:310-317 | for a year below 1000 the form shows fewer than four year digits, and `valueOf` refuses the reordered text with `IllegalArgumentException` |
| Dates.UnpaidMonthsAgree | src/main/java/org/core/PropertyManager.java:504-519 | the console's count is never negative; it equals the form's count wherever the form's count returns, and is 0 wherever the form's count raises |
| Dates.MonthsBetweenExact | src/main/java/org/core/PropertyManager.java:514 | within plausible years the 32-bit arithmetic does not wrap, and the count is the whole months elapsed, floored at 0 |
| Dates.UnpaidMonthsOfDate | src/main/java/org/core/PropertyManager.java:504-519 | on a valid start date the count is max(0, months from the start month to today's month), ignoring the day |
| Dates.UnpaidMonthsStrictOfDate | src/main/java/gui/TenantManager.java:319-325 | on a valid start date the form's count raises nothing and equals that same month difference |
| Dates.UnpaidMonthsStrictSucceeds | src/main/java/gui/TenantManager.java:319-325 | on text `valueOf` accepts, the form's count returns normally with the console's value |
| Dates.IsoStringHasNoComma | src/main/java/gui/TenantManager.java:227 | the exported date text is non-empty and holds no comma |
| Dates.UnpaidMonthsMonotone | src/main/java/org/core/PropertyManager.java:510-515 | the count never decreases as today moves forward |
| Dates.UnpaidMonthsStartMonth | src/main/java/org/core/PropertyManager.java:514-515 | the count is 0 up to the lease-start month, and then one more for each month after it |
| Dates.UnpaidMonthsExample | src/main/java/org/core/PropertyManager.java:504-519 | a lease starting 2023-01-01 owes 18 months on 2024-07-01 |
| Store.MonthFromCode | src/main/java/org/core/PropertyManager.java:225-226 | a code is accepted only as the code of the month it returns |
| Store.MonthCodeRoundTrip | src/main/java/org/core/PropertyManager.java:225-231 | every month is recognised by its own code, and distinct months name distinct `_paid` columns |
| Store.NewRow | src/main/java/org/core/DatabaseManager.java:13-33 | an inserted row holds the given columns, has twelve paid columns and all of them are 0 |
| Store.WithPayment | src/main/java/org/core/PropertyManager.java:255-261 | the month's paid column gains the amount, the balance loses it, and every other column is unchanged; the amount is not checked for sign or clamped |
| Store.PaymentKeepsAccountTotal | src/main/java/org/core/PropertyManager.java:255-261 | balance plus the sum of the paid columns is the same before and after a payment |
| Store.PaymentUndone | src/main/java/org/core/PropertyManager.java:255-261 | a payment of the opposite amount for the same month restores the row |
| Store.PaymentsCommute | src/main/java/org/core/PropertyManager.java:255-261 | two payments give the same row in either order |
| Store.WithRentIncrease | src/main/java/org/core/PropertyManager.java:348-353 | only the rent changes, and it becomes rent times (1 + percent / 100) |
| Store.RentIncreasesCompound | src/main/java/org/core/PropertyManager.java:339-348 | two increases multiply the rent by both factors, and a 0 % increase changes nothing |
| Store.RentIncreaseUndone | src/main/java/org/core/PropertyManager.java:339-348 | an increase by p is undone by an increase of -100p/(100+p) percent |
| Store.Apply | src/main/java/org/core/PropertyManager.java:477-485 | the edited column holds the new value; every other column, the balance and the paid columns are unchanged |
| Store.ApplyUnique | src/main/java/org/core/PropertyManager.java:477-485 | those two facts determine the edited row completely |
| Store.LastEditWins | src/main/java/org/core/PropertyManager.java:477-485 | of two edits of the same column the later one wins |
| Store.ApplyAllKeepsAccount | src/main/java/gui/TenantManager.java:277 | a sequence of edits never touches the balance or the paid columns |
| Store.EmptyTable | src/main/java/org/core/DatabaseManager.java:13-14 | a new table has no rows and is consistent |
| Store.InsertedAddsOneRow | src/main/java/org/core/PropertyManager.java:154-163 | an insert succeeds if and only if name and apartment fit their VARCHAR widths; it then adds exactly one row under a fresh id and keeps every other row |
| Store.InsertedWithIdAddsOneRow | src/main/java/gui/TenantManager.java:142-157 | an insert with an id succeeds if and only if the id is unused and the texts fit; it then adds exactly that row and keeps every other row |
| Store.Updated | src/main/java/org/core/PropertyManager.java:258-263 | an UPDATE by id replaces that row only; an absent id leaves the table as it was |
| Store.Deleted | src/main/java/org/core/PropertyManager.java:318-321 | a DELETE by id removes that id only; an absent id leaves the table as it was |
| Store.AscendingElements | src/main/java/org/core/PropertyManager.java:184-194 | a scan lists every id of the table and nothing else, each once |
| Store.AscendingSorted | src/main/java/org/core/PropertyManager.java:184-194 | a scan lists the ids in increasing order |
| Store.Ledger.constructor | src/main/java/org/core/DatabaseManager.java:13-33 | a new building's table is empty |
| Store.Ledger.ListIds | src/main/java/org/core/PropertyManager.java:184-194 | the loop collecting ids yields the ids in scan order |
| Store.Ledger.Insert | src/main/java/org/core/PropertyManager.java:154-163 | the table becomes the one the insert describes, or stays as it was when the insert fails |
| Store.Ledger.InsertWithId | src/main/java/gui/TenantManager.java:142-157 | the table becomes the one the insert with an id describes, or stays as it was when that insert fails |
| Store.Ledger.PostPayment | src/main/java/org/core/PropertyManager.java:244-268 | the payment is applied to the row with that id and nothing else changes; when no row has the id the table is unchanged |
| Store.Ledger.RaiseRent | src/main/java/org/core/PropertyManager.java:341-358 | only the rent of that id changes; when no row has the id the table is unchanged |
| Store.Ledger.UpdateColumns | src/main/java/org/core/PropertyManager.java:477-485 | the edits are applied to the row with that id; over-wide text fails and changes nothing; an absent id changes nothing |
| Store.Ledger.Delete | src/main/java/org/core/PropertyManager.java:318-321 | the table loses the row with that id, if there is one |
| PropertyManager.Select | src/main/java/org/core/PropertyManager.java:203-218 | 'back' in any case cancels; a pick happens if and only if the answer parses as a number in 1..n, and then it is the id at position choice - 1 |
| PropertyManager.SelectPicksExisting | src/main/java/org/core/PropertyManager.java:184-218 | a picked id always names an existing row |
| PropertyManager.SelectFollowsScanOrder | src/main/java/org/core/PropertyManager.java:188-218 | a smaller choice number picks a smaller id, and the other way round |
| PropertyManager.PlanAddAccepts | src/main/java/org/core/PropertyManager.java:128-162 | a row is planned if and only if every answer is acceptable: no 'back', both dates convert and pass `valueOf` (a sign in front of a part included), both amounts parse |
| PropertyManager.PlanAddRow | src/main/java/org/core/PropertyManager.java:128-162 | the planned row holds the converted dates and parsed amounts, nothing paid, and balance = rent times the unpaid months of the converted start |
| PropertyManager.PlanAddStages | src/main/java/org/core/PropertyManager.java:137-152 | once the answers pass the 'back' checks, conversions and parses, the months are counted on the converted start text |
| PropertyManager.SeededRow | src/main/java/org/core/PropertyManager.java:150-162 | with both dates valid the seeded row is the new row with balance rent times months |
| PropertyManager.PlanAddBack | src/main/java/org/core/PropertyManager.java:128-141 | 'back' at any of the first four prompts plans no row |
| PropertyManager.PlanAddNotANumber | src/main/java/org/core/PropertyManager.java:158-167 | a start date that `valueOf` refuses with `NumberFormatException` is caught and reported as invalid input |
| PropertyManager.PlanAddNonNumericDate | src/main/java/org/core/PropertyManager.java:134-167 | the answer 01-0a-2024 passes the reordering and ends as caught invalid input, not as an escaped exception |
| PropertyManager.AddTenant | src/main/java/org/core/PropertyManager.java:120-169 | a rejected answer changes nothing: a `NumberFormatException` or `SQLException` is reported as invalid input, an `IllegalArgumentException` escapes; otherwise the planned row is inserted, and an insert failure is reported and changes nothing |
| PropertyManager.PaymentRequestAccepts | src/main/java/org/core/PropertyManager.java:205-241 | a payment proceeds if and only if a tenant is picked, the lowered month is one of jan..dec and the trimmed amount parses; the request then carries those three values |
| PropertyManager.PaymentMonthAnyCase | src/main/java/org/core/PropertyManager.java:222-226 | a month typed in any letter case posts to that month's column |
| PropertyManager.RecordPayment | src/main/java/org/core/PropertyManager.java:174-276 | a rejected request changes nothing; an accepted one updates exactly the picked row by the payment |
| PropertyManager.DeleteRemovesOne | src/main/java/org/core/PropertyManager.java:301-321 | deleting the picked tenant removes exactly one existing row and keeps every other row as it was |
| PropertyManager.DeleteTenant | src/main/java/org/core/PropertyManager.java:282-330 | a rejected choice changes nothing; otherwise the picked row is deleted |
| PropertyManager.RentRequest | src/main/java/org/core/PropertyManager.java:335-339 | the request succeeds if and only if both the id and the percentage parse; otherwise it is reported as invalid input |
| PropertyManager.IncreaseRent | src/main/java/org/core/PropertyManager.java:331-364 | a bad answer or an unknown id changes nothing; otherwise only that id's rent is multiplied by 1 + p/100 |
| PropertyManager.MenuField | src/main/java/org/core/PropertyManager.java:427-452 | options "1".."6" and only those select a field |
| PropertyManager.ColumnsDistinct | src/main/java/org/core/PropertyManager.java:427-445 | distinct options write distinct columns, and none of them is the balance or a paid column |
| PropertyManager.PlanFieldUpdateTargets | src/main/java/org/core/PropertyManager.java:467-485 | an accepted answer edits exactly the chosen column; a name or apartment is stored as typed |
| PropertyManager.PlanFieldUpdateDate | src/main/java/org/core/PropertyManager.java:473-482 | a calendar date typed as `MM-DD-Y`, with a year 0 or later of any length, is stored as that date |
| PropertyManager.PlanFieldUpdateOffCalendar | src/main/java/org/core/PropertyManager.java:473-488 | 02-30-2024 is refused by the database's conversion and reported as invalid input |
| PropertyManager.PlanFieldUpdateShortYear | src/main/java/org/core/PropertyManager.java:473-482 | 3-5-24 is stored as 5 March of the year 24 |
| PropertyManager.UpdateTenantField | src/main/java/org/core/PropertyManager.java:467-491 | a rejected answer changes nothing; a date text the database cannot convert is reported only when the id names a row, since the conversion happens per matching row; otherwise one column of the row with that id changes; an absent id or over-wide text changes nothing |
| Tenants.Tenant.constructor | src/main/java/org/core/Tenant.java:16-25 | each of the eight arguments lands unchanged in its own field |
| Tenants.Tenant.SetId | src/main/java/org/core/Tenant.java:32-34 | the id changes and the other seven fields stay |
| Tenants.Tenant.SetName | src/main/java/org/core/Tenant.java:40-42 | the name changes and the other seven fields stay |
| Tenants.Tenant.SetAptNumber | src/main/java/org/core/Tenant.java:48-50 | the apartment changes and the other seven fields stay |
| Tenants.Tenant.SetLeaseStart | src/main/java/org/core/Tenant.java:56-58 | the lease start changes, unchecked against the lease end, and the other seven fields stay |
| Tenants.Tenant.SetLeaseExpired | src/main/java/org/core/Tenant.java:64-66 | the lease end changes and the other seven fields stay |
| Tenants.Tenant.SetSecurity | src/main/java/org/core/Tenant.java:72-74 | the deposit changes, with no sign check, and the other seven fields stay |
| Tenants.Tenant.SetRent | src/main/java/org/core/Tenant.java:80-82 | the rent changes and the other seven fields stay |
| Tenants.Tenant.SetBalance | src/main/java/org/core/Tenant.java:88-90 | the balance changes and the other seven fields stay |
| Tenants.LabelParts | src/main/java/org/core/Tenant.java:93-95 | the label starts with the name, then " (Apt " and the apartment, and ends with the balance text; its length is the three texts' lengths plus the 20 fixed characters |
| Gui.FilteredExactly | src/main/java/gui/TenantManager.java:42-48 | the filtered list holds exactly the listed tenants that match |
| Gui.FilteredConcat | src/main/java/gui/TenantManager.java:42-48 | filtering works piece by piece, so it keeps the list's order |
| Gui.FilteredAll | src/main/java/gui/TenantManager.java:44 | a null or empty query shows every tenant |
| Gui.MatchesIgnoreQueryCase | src/main/java/gui/TenantManager.java:45-47 | the query's letter case does not matter |
| Gui.MatchesExactText | src/main/java/gui/TenantManager.java:45-47 | a tenant whose name or apartment holds the query as typed is always shown |
| Gui.ListingShowsEveryRow | src/main/java/gui/TenantManager.java:169-190 | the refreshed list has one entry per row, in increasing id order, each holding its row's values |
| Gui.ParseTokens | src/main/java/gui/TenantManager.java:147-156 | a line is skipped if and only if it has fewer than 8 tokens; an inserted row takes name and apartment as they are |
| Gui.ImportOnlyAdds | src/main/java/gui/TenantManager.java:145-158 | an import keeps the table consistent and keeps every row already present |
| Gui.ImportStopsAtFailure | src/main/java/gui/TenantManager.java:146-166 | the first line that throws, in parsing or in its insert, ends the import as a failure; the rows inserted before it stay, and the lines after it are ignored |
| Gui.TokensOfCsvLine | src/main/java/gui/TenantManager.java:225-228 | an exported line with no comma in its texts splits back into its eight fields |
| Gui.RecordOfCsvLine | src/main/java/gui/TenantManager.java:147-156 | an exported line imports as its tenant's id and values, with the amounts rounded to cents and nothing paid |
| Gui.ImportOfExport | src/main/java/gui/TenantManager.java:145-158 | importing exported lines whose ids are new and distinct succeeds, adds exactly those ids and keeps the old rows |
| Gui.ListingExportable | src/main/java/gui/TenantManager.java:169-229 | the refreshed list of rows that survive the CSV, once exported, is fit for that import |
| Gui.ListingIds | src/main/java/gui/TenantManager.java:169-190 | the refreshed list names every id of the table |
| Gui.RestoredSurvivor | src/main/java/gui/TenantManager.java:147-156 | a surviving row comes back as itself with the paid columns cleared |
| Gui.ImportOfListing | src/main/java/gui/TenantManager.java:145-229 | export after a refresh, then import into a table that has none of those ids: the import succeeds, keeps the old rows and restores every exported row |
| Gui.ExportImportRoundTrip | src/main/java/gui/TenantManager.java:145-229 | that import yields exactly the old rows plus the exported rows, each with its paid columns back at 0 |
| Gui.PlanForm | src/main/java/gui/TenantManager.java:275-296 | an accepted form plans an INSERT if and only if no tenant is being edited, and an inserted row has its twelve paid columns |
| Gui.FormAddRow | src/main/java/gui/TenantManager.java:279-293 | a new tenant from the form holds the texts, parsed amounts and dates, nothing paid, and balance rent times the unpaid months |
| Gui.FormEditRow | src/main/java/gui/TenantManager.java:277-296 | an edit from the form sets name, apartment, both dates, security and rent of the selected id; balance and paid columns stay |
| Gui.FormEditsApply | src/main/java/gui/TenantManager.java:277-288 | the six SET values applied in order give the row with exactly those six columns replaced |
| Gui.FormAgreesWithConsole | src/main/java/gui/TenantManager.java:279-293 | on answers both accept, the form's add and the console's add build the same row |
| Gui.FormAcceptsExtraParts | src/main/java/gui/TenantManager.java:310-313 | a start date with more than three parts makes the console's add raise, while the form's formatDate accepts it |
| Gui.TenantManager.constructor | src/main/java/gui/TenantManager.java:27-32 | the screen opens on the building's table with an empty list |
| Gui.TenantManager.Refresh | src/main/java/gui/TenantManager.java:169-190 | after the refill the list holds one new Tenant per row, with the row's values, in scan order |
| Gui.TenantManager.ExportCsv | src/main/java/gui/TenantManager.java:223-229 | the header, then one line per listed tenant, in list order |
| Gui.TenantManager.ImportCsv | src/main/java/gui/TenantManager.java:139-167 | the table becomes what the import of the lines describes; a successful import refreshes the list, and a failed one leaves the list as it was |
| Gui.TenantManager.ImportAll | src/main/java/gui/TenantManager.java:145-160 | the loop leaves the table and the outcome the import describes |
| Gui.TenantManager.ImportLine | src/main/java/gui/TenantManager.java:147-158 | one pass of the loop succeeds if and only if its line parses and inserts; it then leaves the table one line further, and otherwise changes nothing |
| Gui.TenantManager.SubmitForm | src/main/java/gui/TenantManager.java:272-305 | an OK succeeds if and only if planning and executing raise nothing; it then applies the statement and refreshes, and otherwise changes nothing |
| Gui.TenantManager.DeleteSelected | src/main/java/gui/TenantManager.java:192-212 | a confirmed selection deletes that id and refreshes; no selection or no confirmation changes nothing |

## Left out

- Console menu loops, prompts and printed messages (`start`, `manageBuilding`, the loop around the edit menu, `viewTenants`) are input and output glue. Only the rules they apply are modelled: selecting from a numbered list and mapping a menu option to a column.
- JDBC, H2 connections and SQL text are replaced by the map-based `Ledger`.
  - A `SQLException` from the connection itself, and the one `refreshTenants` prints and swallows, are not modelled.
  - The database failures modelled are: text too wide for `VARCHAR(255)` or `VARCHAR(50)`; an imported id that is already taken; a date text the database cannot convert, on the console's edit path.
- `DatabaseManager.initializeDatabase` is DDL. Its column list is used as the row shape and the defaults.
- JavaFX is left out: the table widget, cell styling, the title label, the drag-and-drop and FileChooser plumbing, the Cancel button and the alert dialogs. The selection, the confirmation and the lines of the file arrive as parameters.
- Writing `import_log.txt`, and the end-of-line characters of the exported file, are file side effects and are not modelled.
- IEEE doubles are replaced by exact reals.
  - `Double.parseDouble` is modelled on plain decimal text after `trim`. Exponents, `NaN`, `Infinity`, hexadecimal forms and type suffixes are not accepted.
  - `Double.toString` is not modelled. `Tenants.Tenant.Describe` takes it as a parameter, and the form's pre-fill of security and rent is left to the caller.
- `java.sql.Date.valueOf` is modelled as it cuts and checks its text: a year of four characters, a month and a day of one or two, each read by `Integer.parseInt`, month 1..12 and day 1..31. The `Date` it builds rolls a day past the month's end into the next month (2024-02-30 is stored as 1 March); the model keeps the day as written.
- Dates.DbDate: follows H2's `DateTimeUtils.parseDateValue` (optional '+', a year of any length, month and day read by `Integer.parseInt`, a real calendar day). Forms that only some H2 versions accept (a time part after the date, digits without dashes) are not modelled. The Julian calendar that older versions apply before 1583 is not modelled either; the model uses the Gregorian leap-year rule for every year.
- JavaText.ParseInt: accepts ASCII digits only. `Integer.parseInt` also accepts other Unicode decimal digits, so text written with them is refused by the model where Java reads it.
- Money.Format2, Money.Format2HasNoComma: `%.2f` and `%d` are modelled as printed in a locale with ASCII digits and '.' as the decimal separator. In a locale with a decimal comma the exported amounts hold a comma, each line gains fields, and Gui.ExportImportRoundTrip does not hold.
- `String.toLowerCase` and `equalsIgnoreCase` are modelled with the ASCII case mapping, not the full Unicode one.
- The `AUTO_INCREMENT` counter is unbounded. After an insert with an explicit id, the model moves it past that id.
- The getters of `Tenant` are plain field reads: the model reads the fields directly.
- The balance seed `rent * months` is written as rent added once per month (`Money.Times`). `Money.TimesIsProduct` proves this equals the product for every month count the code can produce, because both month counts are never negative.
