# Lab equipment issue tracker: the in-process store and the issue-screen rules

This project models the core of a lab equipment tracker in Dafny. The tracker is a desktop
application that issues serial-numbered components to students and records their return.
The model has two parts:

- the in-process (mock) branches of `DatabaseManager` in `mainV10.py`;
- the decision rules `LabApp` applies before and after calling it.

The store is one immutable value. It holds six record lists: categories (`inventory`),
physical units (`items`), students, staff, transactions and transaction lines. Every
mutating operation is a pure function that returns the new store. Every query is a pure
function over the store.

The earlier revisions `mainV1.py`, `mainV2.py` and `mainV3.py` contain the same mock logic
for the shared operations, so the same definitions model them. Where a revision differs,
the difference is modelled and compared:

- the catalog filter of `mainV3.py`;
- `create_transaction`, which has no issuer in the earlier revisions.

Modules, one file each:

| file | module | what it holds |
|---|---|---|
| `options.dfy` | `Options` | `Option` |
| `seqs.dfy` | `Seqs` | first match and filter scans, with their lemmas |
| `text.dfy` | `Text` | ASCII `upper`/`lower`/`strip`, `int()` parsing of digit strings, `f"{n:03d}"` |
| `store.dfy` | `Store` | the records, the store, id lookups, dense-key invariant |
| `serials.dfy` | `Serials` | serial prefix, highest-suffix scan, generated serials |
| `bulk_import.dfy` | `BulkImport` | `bulk_import_inventory` row by row |
| `workflow.dfy` | `Workflow` | `create_transaction`, `return_item`, `report_damaged`, loan invariant |
| `queries.dfy` | `Queries` | serial/name lookup, current holder, active loans, overdue items, student search, stock counts |
| `cart.dfy` | `Cart` | the issue screen: typed input, status dispatch, cart, finalize |
| `catalog.dfy` | `Catalog` | the catalog screen's filter in both revisions |
| `relative_time.dfy` | `RelativeTime` | the activity feed's relative timestamps |
| `roster.dfy` | `Roster` | `create_student`, `delete_student`, `create_inventory`, the add-student form |

Modelling conventions:

- **Time.** Times are whole seconds. The clock is a parameter `now`.
- **Status text.** Item status is kept as text because the screens compare it as text: lower-cased in the issue screen, stripped in the catalog. Transaction status is `Active | Closed`.
- **Case and whitespace.** Upper/lower case and whitespace follow Python on ASCII. `int()` is modelled for ASCII digits, an optional sign, surrounding whitespace and single underscores between digits.
- **Serial numbering.** The generator takes a numbering rule. `PerCategory` is the source's rule and `AcrossStore` the corrected one (see Findings). Lemmas that hold under both rules take it as a parameter.

## Model

| member | source | states |
|---|---|---|
| Serials.SerialPrefix | mainV10.py:946-948 | the prefix has exactly three characters, none a space or a lower-case letter; it starts with the upper-cased first three characters with their spaces removed and is padded with `X` after them |
| Serials.RaspberryPrefix | mainV10.py:924-926 | the generator's own example: "Raspberry Pi" gives "RAS" |
| Serials.PiPrefix | mainV10.py:924-927 | the generator's own example: the short name "Pi" is padded to "PIX" |
| Serials.DcMotorPrefix | mainV10.py:946-948 | a space among the first three characters is removed before padding: "DC Motor" gives "DCX" |
| Serials.MaxSuffix | mainV10.py:951-960 | the scan's result bounds every parsable suffix of a matching item and is either 0 or the suffix of some matching item |
| Serials.NewSerialSuffix | mainV10.py:963-971 | every generated serial starts with the prefix and its suffix reads back through `int()` as `max + i + 1` |
| Serials.NewSerialsDistinct | mainV10.py:963-971 | the serials generated for one row are pairwise distinct |
| Serials.NewSerialsFresh | mainV10.py:951-971 | no generated serial equals the serial of an item already in the category, under either numbering rule |
| Serials.ArduinoExample | mainV10.py:939-942 | the documented example: ARD001..ARD003 in the category, importing five yields ARD004..ARD008 |
| BulkImport.Reconcile | mainV10.py:898-917 | a category whose name matches ignoring case is the first such one; only its `total_qty` grows, by the quantity, and the row uses its id, every other category and field staying as it was; otherwise one category with that name, quantity, description and id `len + 1` is appended and used; total intake grows by exactly the quantity; the row's name then finds the category the units go to |
| BulkImport.ImportRow | mainV10.py:890-971 | a skipped row (blank name, quantity at most 0) changes nothing and counts nothing; otherwise a category is created and counted exactly when no existing name matches, the categories are those `Reconcile` gives, and the items gain exactly `quantity` new `Available` units, numbered on from the store, belonging to the category `Reconcile` used, which is also the first one the row's name finds afterwards, and carrying the serials generated above that category's highest suffix; students, staff, transactions and lines are untouched |
| BulkImport.ImportedSuffixAboveExisting | mainV10.py:950-966 | every unit a row creates carries the prefix, and its suffix parses to a number above every parsable suffix the scan found, for every unit of the store it started from |
| BulkImport.BulkImport | mainV10.py:860-971 | rows apply in order; the item count equals the sum of the valid rows' quantities; existing items are kept as a prefix; intake grows by the items created |
| BulkImport.ImportRowKeepsSerialsUnique | mainV10.py:946-971 | collision freedom: a row keeps serials unique within every category |
| BulkImport.BulkImportKeepsSerialsUnique | mainV10.py:860-971 | a whole import keeps serials unique within every category |
| BulkImport.SkippedRowsIgnored | mainV10.py:894-895 | importing all rows gives the same store and counts as importing only the rows that are not skipped |
| BulkImport.ImportRowKeepsDenseIds | mainV10.py:909-917 | category and item keys stay equal to their positions plus one |
| Workflow.IssuerField | mainV10.py:296-297 | an issuer is recorded exactly when it is present and non-zero, and then unchanged |
| Workflow.MarkIssued | mainV10.py:306-311 | for each listed id the first item carrying it becomes `Issued`; every other item is unchanged |
| Workflow.CreateTransaction | mainV10.py:285-312 | one `Active` transaction with id `len + 1`, the student, the issue time and the issuer is appended; one line per listed id, in order, numbered on from the lines and pointing at it; for each listed id the first item carrying it becomes `Issued`, and every other item, including a later one with the same id, is unchanged; categories, students, staff unchanged. The earlier revisions' `create_transaction` is the same operation with no issuer. |
| Workflow.ReturnItem | mainV10.py:611-625 | the first item with the id becomes `Available` and no other item changes; the first transaction with the id becomes `Closed` with closing time `now` and no other transaction changes; lines, categories, students and staff are unchanged |
| Workflow.ReportDamaged | mainV10.py:655-669 | the first item with the id becomes `Damaged` and no other item changes; the first transaction with the id becomes `Closed` with closing time `now` and no other transaction changes; lines, categories, students and staff are unchanged |
| Workflow.IssueKeepsDenseIds | mainV10.py:285-305 | transaction and line keys stay equal to their positions plus one, and every line points at an existing transaction |
| Workflow.IssueKeepsLoanInvariant | mainV10.py:285-312 | issuing distinct, non-`Issued` units keeps the invariant "an item is `Issued` exactly when exactly one open loan holds it" |
| Workflow.IssueKeepsLoansSound | mainV10.py:296-311 | after an issue every unit on an open loan is marked `Issued`, whatever the cart held |
| Workflow.IssueKeepsLoansComplete | mainV10.py:296-311 | after an issue every `Issued` unit is on an open loan |
| Workflow.PairAfterIssue | mainV10.py:285-312 | after an allowed issue, no two lines of one unit are both open |
| Workflow.ResolveKeepsLoansSound | mainV10.py:611-669 | resolving an open line keeps every item on an open loan marked `Issued` |
| Workflow.ResolveSoleLineKeepsLoanInvariant | mainV10.py:611-669 | when the resolved line is its transaction's only line, return and damage report keep the whole loan invariant |
| Workflow.ReturnStrandsSibling | mainV10.py:618-623 | whole-transaction closure: returning one unit of a two-unit transaction leaves the other `Issued` with no open loan |
| Workflow.ReturnTwiceIsIdempotent | mainV10.py:611-625 | returning the same unit twice gives the same store as returning it once, up to the recorded closing time |
| Workflow.IssueThenReturn | mainV10.py:285-325 | issuing one unit and returning it leaves the unit `Available` and the transaction `Closed` |
| Queries.ItemBySerial | mainV10.py:150-154 | none exactly when no serial equals the request ignoring case; otherwise the first such item. The earlier revisions have the same lookup. |
| Queries.SerialLookupIgnoresCase | mainV3.py:101-105 | the lookup gives the same answer for the upper- and lower-cased request |
| Queries.SerialFindsItem | mainV10.py:150-154 | with serials unique ignoring case, looking up an item's own serial returns that item |
| Queries.AvailableItemsByName | mainV10.py:167-183 | `[]` for an unknown name or a zero key; otherwise exactly the `Available` units of the first category whose name matches ignoring case. The earlier revisions have the same lookup. |
| Queries.NameLookupIgnoresCase | mainV10.py:167-183 | the name lookup gives the same answer for the upper- and lower-cased name |
| Queries.ImportedUnitsAreOffered | mainV10.py:167-183 | every unit an imported row creates is offered when the row's name is typed |
| Queries.AcrossStoreKeepsSerialsUnique | mainV10.py:951-971 | with the store-wide scan, an imported row keeps every serial in the store unique ignoring case |
| Queries.BulkImportAcrossStoreKeepsSerialsUnique | mainV10.py:860-971 | with the store-wide scan, a whole import keeps every serial in the store unique ignoring case |
| Serials.NewSerialsFreshAcrossStore | mainV10.py:951-971 | with the store-wide scan, no generated serial equals the upper-cased serial of any item in the store |
| Serials.NewSerialsDistinctIgnoringCase | mainV10.py:963-971 | the serials generated for one row stay distinct after upper-casing |
| Queries.ImportedUnitsFoundBySerial | mainV10.py:150-154 | after a store-wide import, every unit is what serial lookup returns for its own serial |
| Queries.SerialCollisionAcrossCategories | mainV10.py:951-960 | as written, a second category with the same prefix is numbered from 1 again, and its unit's serial looks up the other category's unit |
| Queries.NoCollisionAcrossStore | mainV10.py:951-960 | with the store-wide scan the same import yields ARD002, which looks up the new unit |
| Queries.CurrentHolder | mainV10.py:477-491 | a name is returned only when a line of the item belongs to an `Active` transaction whose student has that name; none exactly when no such student exists |
| Queries.HolderIsUnique | mainV10.py:477-491 | in a store keeping the loan invariant with unique student keys, every holder of an item has the same name |
| Queries.HolderAfterIssue | mainV10.py:285-312 | after an allowed issue, each issued unit's holder is the receiving student |
| Queries.HolderAfterReturn | mainV10.py:618-623 | once its open line is resolved, a unit has no holder |
| Queries.ActiveLoans | mainV10.py:558-579 | the student's loans are exactly the item copies on lines of the student's `Active` transactions, with their category, transaction and line |
| Queries.LoanHasHolder | mainV10.py:543-579 | every loan listed for a student makes that student the unit's current holder |
| Queries.OverdueItems | mainV10.py:801-826 | an entry is listed exactly when it is the first item of a line of an `Active` transaction issued strictly before `now - days`, with whole days since issue |
| Queries.OverdueAtLeastThreshold | mainV10.py:803-821 | every listed loan is at least the threshold in whole days old |
| Queries.OverdueMonotone | mainV10.py:801-826 | raising the threshold can only remove entries |
| Queries.NewLoanNotOverdue | mainV10.py:285-312 | a transaction created now is not overdue for any threshold of zero or more days |
| Queries.OverdueIsOld | mainV10.py:801-826 | once a transaction issued now is added, every overdue entry belongs to an older transaction |
| Queries.SearchStudents | mainV10.py:521-531 | an empty stripped query finds nobody; otherwise exactly the students whose lower-cased code or name contains it |
| Queries.SearchIgnoresCase | mainV10.py:521 | the search gives the same answer for upper- and lower-cased queries |
| Queries.SearchFindsOwnCode | mainV10.py:521-531 | searching a student's own code, in any case and with surrounding blanks, finds them |
| Queries.StockRows | mainV10.py:3533-3544 | one row per category in store order with the category's name and intake, and as its three counts the number of the category's units that are `Available`, `Issued` and `Damaged`; the three never exceed the category's units |
| Queries.StatusCount | mainV10.py:3536-3544 | the count is 0 exactly when no unit of the category has the status, and equals the number of units exactly when all of them are of the category and have it |
| Queries.StatusCountIsFilterLength | mainV10.py:3536-3544 | the count equals the length of the list of the category's units with the status, the `sum(1 for ...)` of the screen |
| Queries.CountsWithinCategory | mainV2.py:1408-1416 | the three counts add up to at most the category's units, and exactly when every unit has one of the three statuses |
| Queries.StatusCountUpdate | mainV1.py:755-760 | changing one unit's status moves it between its category's counts and leaves other counts alone |
| Queries.IssueMovesOneUnit | mainV10.py:3536-3544 | issuing one available unit moves one from its category's `Available` count to its `Issued` count |
| Cart.AddItemToCart | mainV10.py:3211-3221 | refused, cart unchanged, exactly when the id is already in the cart; otherwise the item is appended once. The earlier revisions have the same check. |
| Cart.HandleSerial | mainV10.py:3181-3197 | lower-cased `issued` is refused; `damaged` asks for confirmation; `available` adds; anything else is refused with the status; only `available` changes the cart. The earlier revisions have the same dispatch. |
| Cart.ConfirmDamaged | mainV1.py:602-605 | confirming a damage warning adds the unit through the duplicate check and nothing else |
| Cart.HandleName | mainV10.py:3199-3209 | no candidates means a not-found outcome; otherwise the candidates offered are the available units of the category; the cart is unchanged |
| Cart.AddByInput | mainV10.py:3147-3165 | blank input is refused; a serial match goes to the status dispatch; otherwise the input is treated as a component name |
| Cart.RemoveFromCart | mainV2.py:1287-1290 | every entry with the id is dropped, every other entry stays, and the entries left keep their original order. The latest revision's removal, mainV10.py:3383-3386, is the same. |
| Cart.RemoveUndoesAdd | mainV10.py:3211-3221 | removing an item just added gives back the cart it was added to |
| Cart.AddKeepsDistinct | mainV1.py:526-536 | the cart never holds two entries with the same id |
| Cart.IssuedNeverAdded | mainV1.py:500-512 | an item whose status reads `issued` in any case never enters the cart by serial |
| Cart.AddByInputKeepsCartSound | mainV10.py:3136-3221 | whatever is typed, the cart holds distinct store units none of which is `Issued` |
| Cart.PickKeepsCartSound | mainV10.py:3199-3221 | choosing from the name popup keeps the cart sound |
| Cart.ConfirmKeepsCartSound | mainV10.py:3188-3191 | confirming the damage warning keeps the cart sound |
| Cart.RemoveKeepsCartSound | mainV10.py:3383-3386 | removal keeps the cart sound: its entries are still units of the store, none `Issued`, none twice |
| Cart.SoundCartMeetsIssueGuard | mainV10.py:3430-3431 | the ids of a sound cart are exactly what issuing needs to keep the loan invariant |
| Cart.FinalizeIssue | mainV10.py:3388-3431 | refused for an empty cart, then for a missing or zero issuer, then for an unresolved student; otherwise it is `create_transaction` on the cart's ids with that issuer recorded |
| Cart.FinalizeKeepsLoanInvariant | mainV10.py:3388-3431 | finalizing a sound cart keeps the loan invariant |
| Catalog.NormalCourse | mainV10.py:3964-3970 | a course tag is stripped; blank, missing or `N/A` means none |
| Catalog.CatalogRows | mainV10.py:3940-4002 | exactly the items passing the status filter on stripped text, the course filter and the lower-cased search on serial or component name, in store order |
| Catalog.CatalogRowsBefore | mainV3.py:1800-1827 | exactly the items whose status equals the filter unless it is `All` and that match the search, in store order |
| Catalog.NoFilterShowsAll | mainV10.py:3940-4002 | with every filter off, every item is shown in store order |
| Catalog.RevisionsAgree | mainV3.py:1800-1827 | on stripped statuses and no course filter, both revisions show the same rows |
| Catalog.StripMakesADifference | mainV10.py:3940-3948 | a status with trailing blank passes the latest filter and fails the earlier one |
| Catalog.UntaggedHiddenByCourse | mainV10.py:3950-3975 | an item of an untagged category never passes a specific course filter |
| Catalog.SearchOnlyNarrows | mainV10.py:3979-3999 | a row shown with search text is also shown without it |
| RelativeTime.BucketOf | mainV10.py:1865-1879 | under a minute, or in the future, is "Just now"; otherwise minutes below an hour, hours below a day, then days; the count `n` satisfies `n * unit <= elapsed < (n + 1) * unit` |
| RelativeTime.FormatTimestamp | mainV10.py:1837-1883 | a missing stamp reads "Just now", an unparsable one "Recently"; otherwise under a minute reads "Just now", and minutes, hours and days each read as the whole count of that unit, the unit, a plural `s` unless the count is 1, and "ago" |
| RelativeTime.BucketMonotone | mainV10.py:1865-1879 | an older stamp never shows a smaller unit, nor a smaller count in the same unit |
| RelativeTime.RenderInjective | mainV10.py:1869-1879 | different buckets never render the same text |
| Roster.CreateStudent | mainV10.py:225-230 | the new student is appended with a key one more than the largest existing key, above every existing key; 1 for an empty list |
| Roster.CreateStudentFresh | mainV10.py:225-230 | the corrected key is above every existing student key and every key a transaction names |
| Roster.FreshAgreesWithoutOrphans | mainV10.py:225-230 | while every transaction names an existing student, the corrected key is the source's key |
| Roster.MaxIgnoresRepeats | mainV10.py:227 | keys that already occur among the student keys do not change the largest key |
| Roster.CreateStudentFreshKeepsHolders | mainV10.py:477-491 | adding a student with the corrected key changes no item's current holder |
| Roster.StudentKeyReused | mainV10.py:225-252 | as written, deleting the highest-key student during a loan and adding another hands the new student the old key and the open loan |
| Roster.StudentKeyNotReused | mainV10.py:225-252 | with the corrected key the same sequence leaves the orphaned loan without holder |
| Roster.DeleteStudent | mainV10.py:250-252 | exactly the students with other keys remain, in their original order, and nothing else in the store changes |
| Roster.DeleteUndoesCreate | mainV10.py:225-252 | deleting the student just created gives back the store as it was |
| Roster.CreateInventory | mainV10.py:429-433 | the category is appended with a key one more than the largest existing category key, and 1 when there is none; nothing else changes |
| Roster.CreateInventoryAgreesWithImport | mainV10.py:429-433 | on dense keys the form's new category key is the key bulk import would use, and keys stay dense |
| Roster.StudentErrors | mainV10.py:4559-4570 | each message is reported exactly when its condition holds: blank code, blank name, code already used; none means the form is accepted |
| Roster.SubmitAddStudent | mainV10.py:4557-4584 | refused with the error list exactly when the stripped code or name is blank or the code is taken; otherwise the stripped student is appended with blank phone and email stored as none |
| Roster.AddedStudentIsFound | mainV10.py:4557-4584 | a student added through the form is found by searching for their code |
| Roster.SecondSubmitRefused | mainV10.py:4563-4568 | submitting the same code again is refused as a duplicate |
| Text.ParseFormat03 | mainV10.py:955-968 | a zero-padded three-digit rendering reads back as the number |
| Text.Format03Injective | mainV10.py:964 | different suffix numbers never render as the same zero-padded text |
| Text.ContainsStrip | mainV10.py:521-531 | a stripped string is contained in the original |
| Text.RemoveCharKeepsOthers | mainV10.py:946 | `replace(' ', '')` keeps every other character, in the order the string has them |

## Left out

- Every remote (Supabase) branch of `DatabaseManager` is left out. These are network calls to a client library whose behaviour is not visible here.
- Widgets, popups, navigation, colours and charts of `LabApp` and `ComponentSelectionPopup` are left out. They are presentation only. Error messages shown in popups are modelled as outcome values (`Cart.Outcome`, `Cart.Refusal`, `Roster.Submitted`).
- CSV file picking and pandas parsing are left out because they are file I/O. Rows arrive as already-parsed `(name, integer quantity, description)` records.
- Credential loading and the choice between the remote and in-process store in `__init__` are left out because they are environment plumbing.
- `get_inventory_schema` is left out: it sniffs field types of a sample record at run time.
- `get_recent_transactions` and the `get_all_*` getters are left out. The getters return the store's lists unchanged.
- ISO datetime parsing is not modelled. A timestamp arrives as whole seconds, as missing, or as tagged unparsable (`RelativeTime.Stamp`).
- Sub-second precision is not modelled. `int(seconds / 60)` on a non-negative float is the floor, which whole-second division gives.
- Operations that read the clock twice are modelled with one `now`. This covers the days-overdue computation and `closed_at`.
- Unicode case mapping, Unicode whitespace and non-ASCII digits are out: `upper`, `lower`, `strip` and `int()` are modelled on ASCII.
- The code has no error results such as "not found" or "already closed": `return_item` and `report_damaged` always succeed. The model follows the code.
- `FinalizeIssue` takes the issuer and the student as already-resolved optional values. Matching the drop-down text against staff and student display strings is not modelled. Nor is the screen update after the transaction is created.
- `SubmitAddStudent` uses the corrected key of `CreateStudentFresh` (see Findings). `Roster.FreshAgreesWithoutOrphans` shows it equals the source's key whenever every transaction names an existing student.
- `SubmitAddStudent` does not model the "could not add" message, which the source shows when the new key is 0. The store change itself is modelled.
- The add-component form's field validation is not modelled. Only the resulting `create_inventory` call is.
- `Workflow.ResolveSoleLineKeepsLoanInvariant` requires the resolved line to be the only line of its transaction. Closing a transaction with several lines strands the other units (see `Workflow.ReturnStrandsSibling`), so the loan invariant does not survive in general.

## Findings

| source | as written | input that shows it | evidently intended | confidence | as-written member | corrected member |
|---|---|---|---|---|---|---|
| mainV10.py:951-960 | the highest-suffix scan looks only at items of the row's own category, but serial lookup is store-wide and ignores case | "Arduino Uno" holds ARD001; importing one "Arduino Nano" (same prefix ARD, new category) creates a second ARD001, and looking up ARD001 always returns the Uno unit | generated serials are unique across the store, so that every unit can be found by its serial, as the comment at the scan says | high, not executed | Queries.SerialCollisionAcrossCategories | Queries.AcrossStoreKeepsSerialsUnique |
| mainV10.py:225-230 | a new student's key is one more than the largest key among the students that exist now | student 1 holds an open loan and is deleted; the next student added gets key 1 and becomes the holder of that loan | a key is never handed out again while transactions still name it | medium, not executed | Roster.StudentKeyReused | Roster.CreateStudentFresh |
