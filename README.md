# holder_book core, modelled in Dafny

holder_book is a household money book built with Next.js and React. This
project models the logic underneath its screens and proves properties of it:

- the CSV import and export of transactions and categories: the Korean
  column labels, the per-row trimming and type normalisation, the export
  mapping and the two all-or-nothing validators;
- the `categories` IndexedDB object store behind class `CategoryDB`: the
  lazily opened connection, the one-time seeding when the store is created,
  and add / put / delete / getAll. These follow the key-generator and
  storage-operation rules of the W3C Indexed Database API 3.0 (section 2.7
  key order, section 2.11 key generators, section 5.1 object store storage
  operation);
- the seeding of the 42 default categories when the store is empty: as
  written, where it calls a method `CategoryDB` does not have, and with the
  replace that call evidently intends;
- the category table's validation, its duplicate test, the add / save /
  delete handlers and the pagination arithmetic;
- the new-transaction form: the amount input's thousands grouping, the
  comma removal on submit and the required-field check;
- the transaction table's edit buffer and its delete confirmation;
- the page-template registry. It is backed by a JavaScript `Map`, whose
  iteration order is insertion order with an overwrite keeping its place
  (section 24.1.3.9 of ECMA-262). The model also covers `initializeTemplates`
  and `useTemplate`;
- the firework animation's `hexToRgb` colour conversion.

One Dafny module per source file:

- `csv_handler.dfy` (CsvHandler)
- `indexed_db.dfy` (IndexedDb)
- `category_initializer.dfy` (CategoryInitializer)
- `category_table.dfy` (CategoryTable)
- `transaction_form.dfy` (TransactionForm)
- `transaction_table.dfy` (TransactionTable)
- `template_registry.dfy` (TemplateRegistry)
- `init_templates.dfy` (InitTemplates)
- `firework_effect.dfy` (FireworkEffect)

They share three helper modules: `types.dfy` (the record types), `wrappers.dfy`
(Option and Result) and `text.dfy` (JavaScript `trim`, digit stripping,
comma removal, decimal spelling and thousands grouping).

How the source is represented:

- The stateful parts are classes whose methods change their fields:
  `CategoryDB`, the category table's and the transaction table's component
  state, the transaction form's state and the template registry.
- A React state update is an assignment to a field.
- A callback the component calls (`onSave`, `onUpdate`, `onDelete`) is a
  value the method returns.
- A promise is a `Result` or an `Outcome`; a thrown error is a `Failure`.
- Inputs from the environment are parameters:
  - whether `indexedDB.open` fails (`openFails`);
  - the UUID `crypto.randomUUID()` returns;
  - today's date.

## What the code does, in brief

Some behaviour one might expect of a money book is not in the code, and the
model follows the code:

- The version-3 upgrade (`src/utils/indexedDB.ts:20-44`) only creates the store when it is missing and seeds six rows. It never reads, deduplicates or renumbers existing categories.
- `ensureConnection` (`src/utils/indexedDB.ts:96-100`) opens a new connection whenever none is set. Nothing keeps two early calls from opening two.
- `getAllCategories` (`src/utils/indexedDB.ts:48-58`) returns the records in key order, as stored. Nothing sorts them by `order` or fills in a missing one.
- The category table's duplicate test compares trimmed names exactly, letter case included (`src/components/settings/CategoryTable.tsx:70-78`), and an added category carries no `order`.
- `handleSave` stores the edited names as typed, without trimming them.
- `src/utils/indexedDB.ts` defines only the category store; no transaction store.
- `CategoryDB` defines no `replaceAllCategories`, although `src/utils/categoryInitializer.ts:75` calls it (see Findings).

## Model

| member | source | states |
|---|---|---|
| `CsvHandler.ReverseInverts` | src/utils/csvHandler.ts:25-33 | when the labels of a header map are distinct, the `reduce`-built reverse map sends each label back to its own field name |
| `CsvHandler.ReverseHeadersAgree` | src/utils/csvHandler.ts:25-33 | the written-out reverse maps are exactly what the `reduce` over CATEGORY_HEADERS and TRANSACTION_HEADERS builds |
| `CsvHandler.ReverseHeadersInvert` | src/utils/csvHandler.ts:6-33 | both reverse maps invert their forward maps: reverse[forward[k]] == k for every column |
| `CsvHandler.MapHeaderOfLabels` | src/utils/csvHandler.ts:42-45 | `transformHeader` turns every label of either map into its field, so the two maps agree on 유형, 관, 항 and 목 |
| `CsvHandler.MapHeader` | src/utils/csvHandler.ts:25-45 | `transformHeader` finds an inherited Object.prototype member exactly for the twelve names Object.prototype carries (the reverse maps are built on `{}`), and otherwise a field name |
| `CsvHandler.MapHeaderPassThrough` | src/utils/csvHandler.ts:44 | a header that is no label of either map and no Object.prototype member name passes through unchanged |
| `CsvHandler.MapHeaderInherited` | src/utils/csvHandler.ts:25-45 | as written, a header such as `constructor` or `toString` becomes the text of the inherited member, not the header itself |
| `CsvHandler.MapHeaderOwnCorrects` | src/utils/csvHandler.ts:25-45 | the corrected lookup, which reads only the maps' own keys, passes those names through and agrees with `transformHeader` on every other header |
| `CsvHandler.NormalizeType` | src/utils/csvHandler.ts:64-68 | the result is income exactly for 수입 or income, expense exactly for 지출 or expense, and any other value is kept |
| `CsvHandler.NormalizeTypeIdempotent` | src/utils/csvHandler.ts:64-68 | normalising the type twice equals normalising it once |
| `CsvHandler.TransformRow` | src/utils/csvHandler.ts:49-71 | the row transform: every value trimmed, then a non-empty `type` normalised (its properties are the next rows) |
| `CsvHandler.TransformRowContents` | src/utils/csvHandler.ts:50-70 | the row transform keeps the keys, trims every value, and normalises the trimmed `type` |
| `CsvHandler.TransformValueIdempotent` | src/utils/csvHandler.ts:54-68 | transforming a cell twice equals transforming it once |
| `CsvHandler.TransformRowIdempotent` | src/utils/csvHandler.ts:49-71 | importing an already imported row changes nothing |
| `CsvHandler.ParseRows` | src/utils/csvHandler.ts:47-71 | the `filter` and `map` of `complete`: never more rows out than in |
| `CsvHandler.ParseRowsKeepsOrder` | src/utils/csvHandler.ts:47-71 | import drops exactly the rows without keys; output row i is the transform of the i-th surviving input row, and survivors keep their order |
| `CsvHandler.ExportCell` | src/utils/csvHandler.ts:91-105 | the cell of one column: `type` is always 수입 or 지출, and any other cell is text or the record's own truthy value |
| `CsvHandler.ExportRow` | src/utils/csvHandler.ts:88-109 | one entry per column of the chosen map, in column order, labelled in Korean and holding that column's cell |
| `CsvHandler.ExportRowContents` | src/utils/csvHandler.ts:88-108 | an exported row has exactly the chosen map's Korean labels in column order; `type` is 수입 for income and 지출 otherwise, a missing type included; a numeric transaction amount is comma-grouped and any other amount is ''; every other falsy or missing field is '' |
| `CsvHandler.ExportZeroOrder` | src/utils/csvHandler.ts:101-103 | a category `order` of 0 is falsy and exports as the empty string |
| `CsvHandler.UnparseRowsAsWritten` | src/utils/csvHandler.ts:87-110 | as written, the unparser gets the exported rows, or `[{}]` for an empty list |
| `CsvHandler.EmptyExportHasNoHeader` | src/utils/csvHandler.ts:86-114 | as written, an empty export hands the unparser no column names, although the header map has labels |
| `CsvHandler.ExportInput` | src/utils/csvHandler.ts:84-114 | the corrected unparser input: explicit fields equal to the Korean labels, and one exported row per record |
| `CsvHandler.ExportInputHeaderOnly` | src/utils/csvHandler.ts:86-110 | the corrected export has header fields and no data for an empty list, and agrees with the code as written for a non-empty one |
| `CsvHandler.UnparseInputAsWritten` | src/utils/csvHandler.ts:86-114 | as written, the unparser's header fields are the first row's keys: the Korean labels for a non-empty list, none for an empty one |
| `CsvHandler.ExportContent` | src/utils/csvHandler.ts:83-116 | as written, the file is the byte-order mark U+FEFF, then the unparsed rows under the Korean labels for a non-empty list, or the unparse of `[{}]` with no header fields for an empty one |
| `CsvHandler.ExportContentCorrected` | src/utils/csvHandler.ts:83-116 | the corrected file starts with U+FEFF, carries the header row for an empty list too, and equals the file as written for a non-empty list |
| `CsvHandler.ExportThenImport` | src/utils/csvHandler.ts:42-106 | a record keyed by the column fields (`section`, `category`, `subcategory`), exported and imported again, gives back the field names, the English type, the text fields and the comma-grouped amount, which reads back as the original number; the app's `Transaction` records are not of this shape (see Findings) |
| `CsvHandler.ExportedTransactionValidates` | src/utils/csvHandler.ts:130-163 | a re-imported export of such a column-keyed record with date, section and category passes `validateTransactionData`'s row check |
| `CsvHandler.TransactionObject` | src/types/transaction.ts:1-10 | the stored form of a Transaction has its eight keys, the three levels under `category`, `subcategory` and `item`, and no `section` |
| `CsvHandler.TransactionNotReimportable` | src/utils/csvHandler.ts:14-22 | as written, exporting any `Transaction` (the record the transaction form saves) and importing it again loses `item`, puts '' under `section` and the transaction's 관 and 항 under `category` and `subcategory`, and fails validation |
| `CsvHandler.TransactionExportRow` | src/utils/csvHandler.ts:88-109 | the corrected transaction export row: the same Korean labels, filled from `category`, `subcategory` and `item` |
| `CsvHandler.CorrectedTransactionReimports` | src/utils/csvHandler.ts:14-22 | with the corrected columns, a transaction with a non-negative amount re-imports with its 관, 항 and 목 as `section`, `category` and `subcategory`, and passes validation when its date, 관 and 항 are not blank |
| `CsvHandler.Every` | src/utils/csvHandler.ts:133 | `every` holds exactly when the callback holds of each row |
| `CsvHandler.ValidateTransactionData` | src/utils/csvHandler.ts:130-163 | true iff the list is non-empty and every row has date/type/section/category/amount, a valid type spelling, a numeric amount once commas are removed, and non-blank date/section/category |
| `CsvHandler.ValidateCategoryData` | src/utils/csvHandler.ts:166-192 | true iff the list is non-empty and every row has type/section/category, a valid type spelling and non-blank section/category |
| `CsvHandler.OneBadRowRejects` | src/utils/csvHandler.ts:133-162 | one invalid row anywhere rejects the whole batch, for both validators |
| `CsvHandler.ValidateConcat` | src/utils/csvHandler.ts:133-191 | a concatenation of non-empty batches is accepted iff both parts are |
| `CsvHandler.GroupedAmountIsNumeric` | src/utils/csvHandler.ts:152-153 | a comma-grouped amount, with its commas removed and trimmed, has a numeric prefix |
| `Text.TrimSurrounds` | src/utils/csvHandler.ts:56 | `trim` removes only surrounding white space: the result is a slice of the input with white space on both sides |
| `Text.TrimUnique` | src/utils/csvHandler.ts:56 | trimming white space + s + white space, where s is trimmed, gives s |
| `Text.TrimIdempotent` | src/utils/csvHandler.ts:56 | trimming twice is trimming once |
| `Text.TrimEmptyIff` | src/components/settings/CategoryTable.tsx:55 | a string trims to '' exactly when it is all white space |
| `Text.KeepDigits` | src/components/transaction/TransactionForm.tsx:26 | `replace(/[^0-9]/g, '')` leaves only ASCII digits, never lengthens the text, and a character is in the result exactly when it is a digit of the input |
| `Text.KeepDigitsScan` | src/components/transaction/TransactionForm.tsx:26 | the digits are kept in input order: one more character adds itself exactly when it is a digit |
| `Text.RemoveCommas` | src/components/transaction/TransactionForm.tsx:39 | `replace(/,/g, '')` leaves no comma, never lengthens the text, and a character is in the result exactly when it is a non-comma character of the input |
| `Text.RemoveCommasScan` | src/components/transaction/TransactionForm.tsx:39 | the other characters are kept in input order: one more character adds itself exactly when it is not a comma |
| `Text.RemoveCommasLocaleString` | src/components/transaction/TransactionForm.tsx:28-39 | removing the commas from, or keeping the digits of, a number's grouped spelling gives its plain decimal spelling |
| `Text.RemoveCommasGroupDigits` | src/components/transaction/TransactionForm.tsx:28-39 | removing commas inverts thousands grouping |
| `Text.NatToString` | src/components/animations/FireworkEffect.tsx:70 | a number's decimal spelling is non-empty, all digits, has no leading zero, and reads back as that number |
| `Text.DigitsValueLeadingZeros` | src/components/transaction/TransactionForm.tsx:28 | leading zeros do not change the value of a digit string |
| `IndexedDb.StoreRecord` | src/utils/indexedDB.ts:24 | the storage operation of the W3C Indexed Database API on a store with an in-line `id` key path and a key generator (its properties are the next rows) |
| `IndexedDb.KeyOrder` | src/utils/indexedDB.ts:53 | the key order `getAll` follows is a strict total order, with numbers before strings |
| `IndexedDb.StoreRecordKeepsValid` | src/utils/indexedDB.ts:24 | a successful storage operation keeps every record under its own key, and every numeric key below the generator unless the generator is exhausted |
| `IndexedDb.AddGeneratesFreshKey` | src/utils/indexedDB.ts:60-70 | `add` of a value without `id` succeeds iff the generator has not passed 2^53; the generated key was unused, the count grows by one and no other record changes |
| `IndexedDb.AddExistingKeyFails` | src/utils/indexedDB.ts:65 | `add` of a value whose id is already a key fails with ConstraintError |
| `IndexedDb.AddInsertsOne` | src/utils/indexedDB.ts:65-67 | a successful `add` inserts under an unused key and keeps every other record |
| `IndexedDb.PutStoresAtId` | src/utils/indexedDB.ts:77 | `put` always succeeds, stores the value at its id, inserting if absent, and leaves other keys unchanged |
| `IndexedDb.ExplicitKeyBumpsGenerator` | src/utils/indexedDB.ts:24 | storing under an explicit numeric key never moves the generator back, and moves it past that key unless it is exhausted |
| `IndexedDb.SortedKeys` | src/utils/indexedDB.ts:53 | the keys of a set, each once, in ascending key order |
| `IndexedDb.ListRecords` | src/utils/indexedDB.ts:53-55 | `getAll` returns every record exactly once, in ascending key order |
| `IndexedDb.InKeyOrderEmpty` | src/utils/indexedDB.ts:53-55 | a `getAll` listing is empty exactly when the store is |
| `IndexedDb.InKeyOrderUnique` | src/utils/indexedDB.ts:53-55 | the `getAll` listing of a store is unique |
| `IndexedDb.SeedStep` | src/utils/indexedDB.ts:40-42 | adding seed row i to the store holding rows before it generates key i + 1 |
| `IndexedDb.NumberedValid` | src/utils/indexedDB.ts:40-42 | rows added one by one to a fresh store form a valid store with the generator just past them |
| `IndexedDb.SeededStoreContents` | src/utils/indexedDB.ts:23-43 | the created store holds exactly the six seed rows under keys 1..6 with the generator at 7, and none has type income or expense |
| `IndexedDb.Upgrade` | src/utils/indexedDB.ts:20-44 | below version 3 the upgrade sets version 3 and creates and seeds the store when it is missing |
| `IndexedDb.Connected` | src/utils/indexedDB.ts:9-46 | the outcome of connecting: the disk as it is with a connection, a failed open, VersionError for a newer disk, or the upgraded disk |
| `IndexedDb.UpgradeSeedsOnce` | src/utils/indexedDB.ts:20-44 | the upgrade creates and seeds the store only when it is missing, never touches an existing store, and is idempotent |
| `IndexedDb.ReuseConnection` | src/utils/indexedDB.ts:96-100 | with a connection already open, connecting changes nothing |
| `IndexedDb.CategoryDB.constructor` | src/utils/indexedDB.ts:3-7 | a new CategoryDB has no connection and leaves the browser's database as it is |
| `IndexedDb.CategoryDB.Connect` | src/utils/indexedDB.ts:9-46 | a failed open rejects and leaves the connection unset; a newer disk version gives VersionError; otherwise the upgrade runs as needed and the connection is set |
| `IndexedDb.CategoryDB.EnsureConnection` | src/utils/indexedDB.ts:96-100 | connects only while there is no connection; a failure is passed on and leaves the connection unset |
| `IndexedDb.CategoryDB.GetAllCategories` | src/utils/indexedDB.ts:48-58 | after connecting, resolves with every record once in key order; connection errors and a missing store reject |
| `IndexedDb.CategoryDB.AddCategory` | src/utils/indexedDB.ts:60-70 | after connecting, the no-overwrite storage operation; resolves with the key, or rejects and leaves the store unchanged |
| `IndexedDb.CategoryDB.UpdateCategory` | src/utils/indexedDB.ts:72-82 | after connecting, the overwriting storage operation at the record's id |
| `IndexedDb.CategoryDB.DeleteCategory` | src/utils/indexedDB.ts:84-94 | after connecting, removes that key if present, as a no-op otherwise, leaving the other records and the generator unchanged |
| `IndexedDb.CategoryDB.ReplaceAllCategories` | src/utils/indexedDB.ts:72-82 | the corrected replace, built like `updateCategory`: after connecting, one transaction that empties the store, keeping its key generator, and puts each row in order; a failed put or an abort of the transaction leaves the store as it was and passes the error on |
| `IndexedDb.PutAllStopsAtFailure` | src/utils/indexedDB.ts:77-80 | in a run of puts, once one put rejects, the run rejects with that error |
| `IndexedDb.PutAllDistinctIds` | src/utils/indexedDB.ts:77 | a run of puts of rows with distinct ids always succeeds; afterwards the store holds its earlier keys plus the rows' ids, each row under its own id |
| `CategoryInitializer.ToCategoriesShape` | src/utils/categoryInitializer.ts:66-73 | the mapped list has the defaults' length, with id == order == index + 1, income exactly for label 수입, names copied verbatim and ids distinct |
| `CategoryInitializer.BlockLabels` | src/utils/categoryInitializer.ts:11-57 | there are 12 income defaults, all labelled 수입, and 30 expense defaults, all labelled 지출 |
| `CategoryInitializer.DefaultsIncomeFirst` | src/utils/categoryInitializer.ts:11-73 | the 42 defaults have 수입 exactly at the first 12 positions, so income orders are 1..12 and expense orders 13..42 |
| `CategoryInitializer.DefaultsDistinct` | src/utils/categoryInitializer.ts:11-57 | no two defaults share type, section, category and subcategory |
| `CategoryInitializer.ReplaceWithDefaults` | src/utils/categoryInitializer.ts:66-75 | clearing a store, whatever its key generator, and putting the default records one by one never fails and leaves exactly the 42 defaults, default i under key i + 1 |
| `CategoryInitializer.InitializeCategoriesAsWritten` | src/utils/categoryInitializer.ts:59-82 | as written: read errors are rethrown and a non-empty store is left alone; for an empty store the call of the missing `replaceAllCategories` throws a TypeError, which is rethrown, and nothing is written |
| `CategoryInitializer.InitializeCategories` | src/utils/categoryInitializer.ts:59-82 | with the intended replace: read errors are passed on; a non-empty store is left alone; an empty one ends up holding exactly the 42 defaults, or, when the replacing transaction aborts, its error is passed on and the store stays empty |
| `CategoryTable.ValidateForm` | src/components/settings/CategoryTable.tsx:54-68 | the add-form check of 관, 항 and 목, in that order (its property is the next row) |
| `CategoryTable.ValidateFormIff` | src/components/settings/CategoryTable.tsx:54-68 | validation fails iff some field is all white space, and the error names the first such field in the order 관, 항, 목 |
| `CategoryTable.IsDuplicate` | src/components/settings/CategoryTable.tsx:70-78 | the `some` over the listed categories (its properties are the next rows) |
| `CategoryTable.IsDuplicateIff` | src/components/settings/CategoryTable.tsx:70-78 | an entry is a duplicate iff some listed category has its type and exactly equal trimmed names |
| `CategoryTable.IsDuplicateOfTrimmed` | src/components/settings/CategoryTable.tsx:92-99 | trimming the entry before the duplicate test does not change the test's outcome |
| `CategoryTable.SaveAcceptsBlank` | src/components/settings/CategoryTable.tsx:131-134 | a whitespace-only field passes the save guard but fails add validation; everything add accepts, save accepts |
| `CategoryTable.TotalPages` | src/components/settings/CategoryTable.tsx:30 | `Math.ceil(n / itemsPerPage)` on whole numbers (its property is the next row) |
| `CategoryTable.TotalPagesIsCeiling` | src/components/settings/CategoryTable.tsx:30 | totalPages is the ceiling of n / itemsPerPage, and is 0 exactly for an empty list |
| `CategoryTable.PageSlice` | src/components/settings/CategoryTable.tsx:31-33 | the rows of one page, with `slice` clamping both ends (its properties are the next two rows) |
| `CategoryTable.PageSliceAt` | src/components/settings/CategoryTable.tsx:31-33 | page p shows the entries from (p-1)k on, at most k of them |
| `CategoryTable.PagesCover` | src/components/settings/CategoryTable.tsx:30-33 | pages 1..totalPages, one after the other, are the whole list, and every later page is empty |
| `CategoryTable.NavigationInRange` | src/components/settings/CategoryTable.tsx:355-396 | from a page in range, every enabled button leads to a page in range, and next/last are disabled exactly on the last shown page; from a page past the shown count, back is enabled, next/last are enabled whenever there are pages, next leads further out and last back into range; the shown count is at least 1 |
| `CategoryTable.PastLastPageEmpty` | src/components/settings/CategoryTable.tsx:30-33 | a page past the last one, and the page after it, show no rows |
| `CategoryTable.PageAfterLastDelete` | src/components/settings/CategoryTable.tsx:149-155 | as written, with eleven categories at ten per page, deleting the only row of page 2 leaves the table on page 2 of 1, showing nothing, with '>' enabled and leading to the empty page 3 |
| `CategoryTable.ClampedPage` | src/components/settings/CategoryTable.tsx:149-155 | the corrected page after a delete lies between 1 and the shown page count, and is the current page whenever that is still in range |
| `CategoryTable.ClampedPageShowsRows` | src/components/settings/CategoryTable.tsx:30-33 | after the clamp a non-empty list always shows some rows |
| `CategoryTable.CategoryTableState.ClampPage` | src/components/settings/CategoryTable.tsx:149-155 | the corrected `confirmDelete` step: the current page becomes the clamped page and nothing else changes |
| `CategoryTable.CategoryTableState.constructor` | src/components/settings/CategoryTable.tsx:16-27 | the initial state: nothing being edited or deleted, an empty form, no error or toast, page 1 of 10 |
| `CategoryTable.CategoryTableState.ChangeAddField` | src/components/settings/CategoryTable.tsx:195-222 | an add-form input clears the error and sets its field only |
| `CategoryTable.CategoryTableState.HandleAdd` | src/components/settings/CategoryTable.tsx:80-120 | writes nothing while submitting, on a validation error or on a duplicate; otherwise adds the trimmed entry under the fresh UUID; on success the form clears and a success toast shows, on failure the form stays and an error toast shows |
| `CategoryTable.CategoryTableState.HandleEdit` | src/components/settings/CategoryTable.tsx:122-129 | starts editing the row and loads its names into the form |
| `CategoryTable.CategoryTableState.ChangeEditField` | src/components/settings/CategoryTable.tsx:269-293 | an inline edit input sets its field only |
| `CategoryTable.CategoryTableState.HandleSave` | src/components/settings/CategoryTable.tsx:131-143 | refuses only an empty-string field; otherwise puts the untrimmed names under the row's id without a duplicate test, and stops editing once the put succeeds |
| `CategoryTable.CategoryTableState.CancelEdit` | src/components/settings/CategoryTable.tsx:309 | stops editing and changes nothing else |
| `CategoryTable.CategoryTableState.HandleDelete` | src/components/settings/CategoryTable.tsx:145-147 | remembers the row to delete |
| `CategoryTable.CategoryTableState.ConfirmDelete` | src/components/settings/CategoryTable.tsx:149-155 | deletes only when a truthy deleteId is set, and clears it once the delete succeeds |
| `CategoryTable.CategoryTableState.CloseDeleteModal` | src/components/settings/CategoryTable.tsx:424 | closing the confirmation clears deleteId without deleting |
| `CategoryTable.CategoryTableState.HandleItemsPerPageChange` | src/components/settings/CategoryTable.tsx:177-180 | sets a page size from {10, 20, 30} and returns to page 1 |
| `CategoryTable.CategoryTableState.PressBack` | src/components/settings/CategoryTable.tsx:355-371 | first/previous go to page 1 or the page before, and do nothing on page 1 |
| `CategoryTable.CategoryTableState.PressForward` | src/components/settings/CategoryTable.tsx:383-398 | next/last go to the page after or the last page, and do nothing on the last page or when there are no pages |
| `TransactionForm.FormatAmount` | src/components/transaction/TransactionForm.tsx:24-29 | the amount input is empty exactly when the typed text has no digit |
| `TransactionForm.FormatAmountIdempotent` | src/components/transaction/TransactionForm.tsx:24-29 | re-entering an already formatted amount gives the same text |
| `TransactionForm.FormatDropsLeadingZeros` | src/components/transaction/TransactionForm.tsx:26-28 | zeros typed before the digits are dropped |
| `TransactionForm.FormatOfLocaleString` | src/components/transaction/TransactionForm.tsx:28 | the grouped spelling of a number is a fixed point of the amount input |
| `TransactionForm.AmountRoundTrip` | src/components/transaction/TransactionForm.tsx:28-39 | removing the commas from the formatted amount and converting gives the value of the digits typed, or 0 when none were typed |
| `TransactionForm.ShownAmountConverts` | src/components/transaction/TransactionForm.tsx:28-39 | an amount the input produced always converts to a number, and a non-empty one is that number's grouped spelling |
| `TransactionForm.Accepts` | src/components/transaction/TransactionForm.tsx:39-44 | the submit guard: a non-zero amount and non-empty category, subcategory and item (its property is the next row) |
| `TransactionForm.AcceptsShown` | src/components/transaction/TransactionForm.tsx:39-44 | with a formatted amount, submit rejects on the amount exactly when it converts to 0 |
| `TransactionForm.TransactionFormState.constructor` | src/components/transaction/TransactionForm.tsx:12-19 | the form starts with today's date and every other field empty |
| `TransactionForm.TransactionFormState.HandleChange` | src/components/transaction/TransactionForm.tsx:21-33 | the amount input stores its formatted text, every other input its text verbatim, and the amount stays formatted |
| `TransactionForm.TransactionFormState.HandleSubmit` | src/components/transaction/TransactionForm.tsx:35-65 | a zero or empty amount, or an empty category, subcategory or item, saves nothing and keeps the form; otherwise the transaction with the prop type and the fields is saved and the form reset |
| `TransactionTable.SanitizeAmount` | src/components/transaction/TransactionTable.tsx:36-40 | the edited amount: the value of the typed digits, or 0 (its properties are the next four rows) |
| `TransactionTable.EditAmountShown` | src/components/transaction/TransactionTable.tsx:36-40 | leaving the shown grouped amount as it is gives back the amount |
| `TransactionTable.EditAmountTyped` | src/components/transaction/TransactionTable.tsx:36-40 | typing a digit after the shown amount appends that digit to the number |
| `TransactionTable.EditAmountOtherChar` | src/components/transaction/TransactionTable.tsx:36-40 | typing a non-digit after the shown amount leaves the number unchanged |
| `TransactionTable.EditAmountDropsSign` | src/components/transaction/TransactionTable.tsx:36-40 | editing the input of a negative amount makes it positive, because the minus sign is not kept |
| `TransactionTable.WithField` | src/components/transaction/TransactionTable.tsx:36-43 | one change to the buffer: the amount becomes the sanitised number, any other field takes the text verbatim (its properties are the next rows) |
| `TransactionTable.WithFieldKeepsOthers` | src/components/transaction/TransactionTable.tsx:36-43 | one edit changes the chosen field only; the id never changes |
| `TransactionTable.TransactionTableState.constructor` | src/components/transaction/TransactionTable.tsx:23-26 | nothing is edited, selected or shown at first |
| `TransactionTable.TransactionTableState.HandleEdit` | src/components/transaction/TransactionTable.tsx:28-31 | the row's id and a copy of the row become the edit buffer |
| `TransactionTable.TransactionTableState.HandleEditChange` | src/components/transaction/TransactionTable.tsx:33-44 | a no-op without a buffer; otherwise one field changes: the amount to its digits' value, or 0, and any other field to the text verbatim |
| `TransactionTable.TransactionTableState.HandleEditSave` | src/components/transaction/TransactionTable.tsx:46-51 | without a buffer or with id 0 nothing happens; otherwise onUpdate(id, buffer) is issued once, for the buffer's own id, and editing ends |
| `TransactionTable.TransactionTableState.HandleEditCancel` | src/components/transaction/TransactionTable.tsx:53-56 | editing ends without an update |
| `TransactionTable.TransactionTableState.HandleDelete` | src/components/transaction/TransactionTable.tsx:58-61 | selects the row and opens the dialog |
| `TransactionTable.TransactionTableState.ConfirmDelete` | src/components/transaction/TransactionTable.tsx:63-69 | with a selection, onDelete is issued for its id, the dialog closes and the selection clears; without one nothing happens |
| `TransactionTable.TransactionTableState.CloseDeleteModal` | src/components/transaction/TransactionTable.tsx:216 | the dialog closes and the selection stays |
| `TemplateRegistry.EmptyMap` | src/templates/registry/templateRegistry.ts:4 | a new Map is well formed and empty |
| `TemplateRegistry.MapSetGet` | src/templates/registry/templateRegistry.ts:7-11 | after set(k, v), get(k) is v and every other key reads as before |
| `TemplateRegistry.MapGetMissing` | src/templates/registry/templateRegistry.ts:10-12 | a key that was never set reads as undefined |
| `TemplateRegistry.MapSetValues` | src/templates/registry/templateRegistry.ts:7 | setting an existing key replaces its value in place and keeps the size; setting a new key appends its value |
| `TemplateRegistry.MapSetTwice` | src/templates/registry/templateRegistry.ts:7 | setting the same key to the same value twice equals setting it once |
| `TemplateRegistry.RegisterKeepsValid` | src/templates/registry/templateRegistry.ts:6-8 | registering keeps every template filed under its own id |
| `TemplateRegistry.ByCategoryMembers` | src/templates/registry/templateRegistry.ts:18-22 | the category filter keeps exactly the templates of that category |
| `TemplateRegistry.ByCategoryAppend` | src/templates/registry/templateRegistry.ts:18-22 | filtering a concatenation concatenates the filtered parts, so the filter keeps order |
| `TemplateRegistry.ByCategoryAll` | src/templates/registry/templateRegistry.ts:18-22 | a list whose every template has that category is returned whole |
| `TemplateRegistry.TemplateRegistry.constructor` | src/templates/registry/templateRegistry.ts:4 | a new registry holds no templates |
| `TemplateRegistry.TemplateRegistry.RegisterTemplate` | src/templates/registry/templateRegistry.ts:6-8 | the map after registering is the map before, set at the template's id |
| `TemplateRegistry.TemplateRegistry.GetTemplate` | src/templates/registry/templateRegistry.ts:10-12 | defined exactly for registered ids, and then it is the template carrying that id |
| `TemplateRegistry.TemplateRegistry.GetAllTemplates` | src/templates/registry/templateRegistry.ts:14-16 | one template per registered id, in first-registration order, with no id twice |
| `TemplateRegistry.TemplateRegistry.GetTemplatesByCategory` | src/templates/registry/templateRegistry.ts:18-22 | exactly the registered templates of that category |
| `InitTemplates.NotFoundMessage` | src/templates/registry/initTemplates.ts:14 | the thrown message contains the id that was not found |
| `InitTemplates.UseTemplate` | src/templates/registry/initTemplates.ts:12-17 | returns the registered template whenever getTemplate is defined, and otherwise fails with the not-found message |
| `InitTemplates.InitializeTemplates` | src/templates/registry/initTemplates.ts:4-8 | registers the dark template, after which useTemplate("dark-template") returns it |
| `InitTemplates.InitializeTwice` | src/templates/registry/initTemplates.ts:4-8 | initializing a fresh registry twice leaves exactly one template, the dark one |
| `InitTemplates.InitializeIdempotent` | src/templates/registry/initTemplates.ts:6 | a second initialization leaves any registry as the first left it |
| `FireworkEffect.HexToRgb` | src/components/animations/FireworkEffect.tsx:67-72 | the three components of a six-digit colour, or the fallback '255, 255, 255' (its properties are the next rows) |
| `FireworkEffect.SixDigits` | src/components/animations/FireworkEffect.tsx:68 | a match is six hex digits, alone or after one '#' |
| `FireworkEffect.SixDigitsAccepts` | src/components/animations/FireworkEffect.tsx:68 | every optional '#' followed by six hex digits matches, with those digits |
| `FireworkEffect.PairValue` | src/components/animations/FireworkEffect.tsx:70 | each colour component is below 256 |
| `FireworkEffect.WhiteIsFfffff` | src/components/animations/FireworkEffect.tsx:71 | the fallback '255, 255, 255' is what #ffffff converts to |
| `FireworkEffect.WrongLengthIsWhite` | src/components/animations/FireworkEffect.tsx:68-71 | an input of any length but 6 or 7, such as a 3- or 8-digit colour or the empty string, gives the fallback |
| `FireworkEffect.NonHexIsWhite` | src/components/animations/FireworkEffect.tsx:68-71 | a non-hex character after the optional '#' gives the fallback |
| `FireworkEffect.RgbToHexRoundTrip` | src/components/animations/FireworkEffect.tsx:69-70 | spelling any colour as #rrggbb and converting it gives back its three decimal components |
| `FireworkEffect.HexToRgbCaseInsensitive` | src/components/animations/FireworkEffect.tsx:68 | two spellings that differ only in letter case give the same output |
| `FireworkEffect.PaletteConverts` | src/components/animations/FireworkEffect.tsx:19 | every palette colour matches; #ebf0ec, #c3c7c4, #bebec2 and #41416e give 235, 240, 236 / 195, 199, 196 / 190, 190, 194 / 65, 65, 110 |

## Left out

- Papa Parse's tokeniser, quoting and encoding, and the Blob / object-URL / link-click download. Rows are taken as already split into cells. The unparser is a function parameter of `ExportContent` and `ExportContentCorrected`.
- `CsvHandler.KeyText`: the text of an inherited built-in function follows the usual engine output `function NAME() { [native code] }`. ECMA-262 fixes only the form of that text, not its exact spelling. Either way it differs from the header.
- Papa Parse keeps surplus cells under `__parsed_extra`. The model does not; such rows do not arise from this app's own exports.
- Import cell values are always strings, because Papa's header mode without dynamic typing produces only strings. So "non-string values are untouched" has no case to cover.
- `IndexedDb.CategoryDB.ReplaceAllCategories`: why a transaction aborts (quota, a closed connection, a version change) is not modelled; the `abort` parameter says whether it does and with which error.
- The asynchronous IndexedDB machinery: requests, events, transactions and their interleaving. Each operation is one atomic step over the store. Likewise React's batching of state updates: each handler is one atomic step.
- The `type` index of the store. Nothing in the core reads it.
- The per-type category filter of `src/components/settings/CategoryTabs.tsx` is not part of this model. `IndexedDb.SeededStoreContents` states the fact it depends on: the seeded rows' type labels (`INCOME`, `EXPENSE`) are neither `income` nor `expense`, so the filter never selects them.
- Besides the connection failure, the other errors `indexedDB.open` can report (quota, blocked upgrade) are folded into `openFails`.
- String key order compares code units. It is modelled on Dafny `char`, which equals UTF-16 order only for characters in the Basic Multilingual Plane.
- `toLocaleString` is modelled as comma grouping every three digits, as in an English or Korean locale. Other locales are not modelled.
- Numbers beyond 2^53 (precision loss in `Number`/`parseInt`) and non-integer amounts. Amounts are unbounded integers.
- `Number()`'s leniency on arbitrary text (surrounding white space, `0x`, exponents, `Infinity`). The form's amount field only ever holds its own formatted digits, and for that text the model is exact.
- `parseFloat` beyond "has a numeric prefix" in the validators.
- Toast timers, `setTimeout`, `alert`, the `onUpdate` refresh of the category list, and all rendering.
- The particle animation of the firework effect: floating point, `requestAnimationFrame`, `Math.random`. Also `useFirework` and `FireworkProvider`.
- The JSX-valued default props and the `Date` stamps of the templates. A template keeps its metadata, its component's name and its text-valued props.
- The transaction edit row has no input for `id`. So `WithField` has no case for it, although `keyof Transaction` would allow one.
- `CategoryTable.CategoryTableState.HandleAdd`: `onUpdate` is not awaited or modelled, and neither are the toast-replacement timer and the error-toast path of an `onUpdate` failure.

## Findings

| source | as written | input that shows it | evidently intended | confidence | as-written member | corrected member |
|---|---|---|---|---|---|---|
| src/utils/csvHandler.ts:86-114 | an empty list is unparsed as `[{}]`. Papa takes the header from the first object's keys, and `{}` has none, so the file is the BOM alone | `exportToCSV([], "x.csv")` | a header-only file with the Korean column labels, as the comments at lines 86 and 110 say | not executed | `CsvHandler.EmptyExportHasNoHeader` | `CsvHandler.ExportInputHeaderOnly` |
| src/utils/csvHandler.ts:25-45 | the reverse maps are built by `reduce` onto `{}`, so they inherit Object.prototype; `transformHeader` returns the inherited member for a header such as `constructor` or `toString`, and the column is keyed by that function's text | a CSV whose header row has a column `toString` | unknown headers pass through unchanged, as the final `header` fallback means | not executed | `CsvHandler.MapHeaderInherited` | `CsvHandler.MapHeaderOwnCorrects` |
| src/utils/csvHandler.ts:14-22 | the transaction columns read `section`, `category` and `subcategory`, but a `Transaction` (src/types/transaction.ts:1-10) holds `category`, `subcategory` and `item`; 관 exports as '', `item` is dropped, and the re-imported row fails `validateTransactionData` (line 158) | the transaction the form saves with date 2024-05-01, 관 생활비, 항 식비, 목 외식 and amount 12000 | 관, 항 and 목 carry the transaction's three levels, so an export imports again | not executed | `CsvHandler.TransactionNotReimportable` | `CsvHandler.CorrectedTransactionReimports` |
| src/utils/categoryInitializer.ts:75 | `categoryDB.replaceAllCategories(categories)` calls a method `CategoryDB` (src/utils/indexedDB.ts:3-101) does not define, so it throws a TypeError, which lines 78-81 rethrow; the defaults are never written | a store whose six seeded categories were all deleted, then `initializeCategories()` | one transaction that clears the store and puts the 42 defaults | not executed | `CategoryInitializer.InitializeCategoriesAsWritten` | `CategoryInitializer.InitializeCategories` |
| src/components/settings/CategoryTable.tsx:149-155 | `confirmDelete` never clamps `currentPage`; after the last page loses its only row the label reads "2 / 1", '>' (line 385) stays enabled and leads to page 3, and neither page shows a row | eleven categories at ten per page, on page 2, delete its one row | the current page clamped to the new page count | not executed | `CategoryTable.PageAfterLastDelete` | `CategoryTable.ClampedPageShowsRows` |
