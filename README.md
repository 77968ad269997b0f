# Ledger model: balance, create, delete and CSV import

A Dafny model of the ledger logic of a small Express/TypeORM backend. The ledger holds
transactions (`income` or `outcome`, with a value and a category) and categories (a
unique title). It does four things:

- it computes the balance: the income sum, the outcome sum, and their difference as the total;
- it creates one transaction under the solvency rule: an outcome larger than the current
  total is refused before anything is written;
- it deletes a transaction by identifier and fails when there is none;
- it imports a batch of transactions from a delimited file. The header line is skipped.
  Cells are trimmed and incomplete records are dropped. Missing categories are created once
  each, and one transaction per kept record is bound to the category with its title.

Files:

- `types.dfy` (module `LedgerTypes`): the entities `Transaction` and `Category`, the
  `Error`/`Outcome` result types, and `FindByTitle`, the lookup of a category by exact title.
- `balance.dfy` (module `Balance`): `GetBalance` as filter-and-reduce. It is related to a
  single-pass reference sum `KindSum`, and the lemmas cover order independence and the effect
  of appending or removing one transaction.
- `text.dfy` (module `Text`): JavaScript's `String.prototype.trim`.
- `import_records.dfy` (module `ImportRecords`): the value-level part of the import. This
  covers the per-record decision, the record loop of the stream's `'data'` handler, the
  titles of the categories to create (filter, then first-occurrence dedup), and the binding
  of candidates to categories.
- `ledger.dfy` (module `Ledger`): the store invariant and class `Ledger`. The class holds the
  two stores as sequences updated in place, plus an identifier counter. Its methods are
  `CreateTransaction`, `DeleteTransaction` and `ImportTransactions`, together with the two
  store saves they use. Module `LedgerScenarios` holds two client methods: a create/solvency
  example and a delete/not-found example.

Decisions:

- Identifiers are natural numbers from one counter shared by both stores. Each save takes
  the next ones.
- The transaction type is kept as text (`kind`). The create request is typed
  `'income' | 'outcome'`. The import stores any non-empty trimmed text there. The balance
  counts only the exact texts `"income"` and `"outcome"`, so another type counts in
  neither sum.
- Values are integers. The import's conversion of the value cell is the parameter
  `toNumber`.
- `getBalance` is a function of the transaction sequence. Computing it therefore changes
  no store.
- The source raises the same application error, with the same message and status 400,
  for a refused outcome and for a missing transaction. The model names the two cases
  `InsufficientFunds` and `NotFound`.
- The store invariant (`Ledger.Consistent`, kept by every method) has four parts.
  Identifiers are unique within each store and below the counter. Category titles are
  unique. Every transaction refers to a stored category.

## Model

| member | source | states |
|---|---|---|
| `Balance.GetBalance` | src/repositories/TransactionsRepository.ts:13-29 | income is the sum of the values of the transactions of type income, outcome the sum for type outcome, total is income minus outcome |
| `Balance.FilterReduceIsKindSum` | src/repositories/TransactionsRepository.ts:16-22 | filtering by type and then reducing from the left gives the same sum as a single front-to-back pass over the matching values |
| `Balance.KindSumPermutation` | src/repositories/TransactionsRepository.ts:16-22 | the sum for a type is the same for any permutation of the transactions |
| `Balance.BalanceIsOrderIndependent` | src/repositories/TransactionsRepository.ts:16-28 | two sequences holding the same transactions (same multiset) have the same balance |
| `Balance.BalanceAppend` | src/repositories/TransactionsRepository.ts:16-28 | appending a transaction raises income or outcome by its value according to its type, and moves the total by its signed value (zero for any other type) |
| `Balance.BalanceRemove` | src/repositories/TransactionsRepository.ts:16-28 | removing a transaction takes its signed value off the total |
| `Text.Trim` | src/services/ImportTransactionsService.ts:44-46 | the trimmed cell has no white space at either end, is no longer than the cell, and is empty exactly when the cell is all white space |
| `Text.TrimCutsOnlyWhitespace` | src/services/ImportTransactionsService.ts:44-46 | the trimmed cell is an infix of the cell, and only white space was cut on either side |
| `Text.TrimIdempotent` | src/services/ImportTransactionsService.ts:44-46 | trimming a trimmed cell changes nothing |
| `Text.TrimmedIsFixed` | src/services/ImportTransactionsService.ts:44-46 | a cell without white space at its ends is left as it is |
| `ImportRecords.ParseRecordSpec` | src/services/ImportTransactionsService.ts:44-48 | a record is kept exactly when it has at least four fields and none of the first four is empty after trimming; a kept record's title, type, value and category are those fields trimmed, each non-empty with no white space at its ends |
| `ImportRecords.ParseIgnoresPadding` | src/services/ImportTransactionsService.ts:44-48 | the validity check and the stored fields depend only on the trimmed cells |
| `ImportRecords.HeaderSkipped` | src/services/ImportTransactionsService.ts:33-36 | the first record yields no candidate whatever it holds; candidates come from the records after it |
| `ImportRecords.KeepValidAppend` | src/services/ImportTransactionsService.ts:43-52 | the candidates of two runs of records joined are the candidates of each run joined, so each record is judged on its own and input order is kept |
| `ImportRecords.DroppedRecordIsInvisible` | src/services/ImportTransactionsService.ts:48 | a record with a missing or empty field contributes no candidate and does not change the candidates of the others |
| `ImportRecords.OneCandidatePerKeptRecord` | src/services/ImportTransactionsService.ts:48-51 | the candidates correspond one to one, in increasing record position, to exactly the kept records |
| `ImportRecords.AllValidAllKept` | src/services/ImportTransactionsService.ts:43-52 | when every record is valid there is one candidate per record, the i-th being the i-th record parsed |
| `ImportRecords.CollectCandidates` | src/services/ImportTransactionsService.ts:40-52 | the record loop yields the candidates of the records after the header, and the list of their category fields with repeats |
| `ImportRecords.Matching` | src/services/ImportTransactionsService.ts:56-60 | the fetched categories are exactly the stored ones whose title occurs among the batch's category fields |
| `ImportRecords.Absent` | src/services/ImportTransactionsService.ts:66-67 | keeps exactly the titles not among the existing titles |
| `ImportRecords.IndexOf` | src/services/ImportTransactionsService.ts:68 | the first position of a title, or -1 exactly when it does not occur |
| `ImportRecords.FirstOccurrences` | src/services/ImportTransactionsService.ts:68 | keeps each title at its first occurrence only: the result is duplicate-free, holds every title of the input, and is ordered by first occurrence |
| `ImportRecords.NewTitles` | src/services/ImportTransactionsService.ts:66-68 | the titles to create are pairwise distinct, and a title is among them exactly when some record names it and no existing category has it |
| `ImportRecords.NewTitlesFromMatching` | src/services/ImportTransactionsService.ts:56-68 | comparing against the fetched categories only gives the same titles to create as comparing against every stored category |
| `ImportRecords.AppendKeepsTitlesUnique` | src/services/ImportTransactionsService.ts:70-76 | saving categories with distinct titles new to the store keeps all titles unique |
| `ImportRecords.Bind` | src/services/ImportTransactionsService.ts:80-87 | one transaction per candidate, in order, with the candidate's title and type, its value converted, consecutive fresh identifiers, and a category whose title equals the candidate's category field |
| `ImportRecords.EveryCandidateResolves` | src/services/ImportTransactionsService.ts:78-85 | the lookup among the new categories followed by the fetched ones finds a category for every candidate |
| `LedgerTypes.FindByTitle` | src/services/ImportTransactionsService.ts:85 | returns the first category whose title equals the given one exactly, and nothing exactly when no category has it |
| `LedgerTypes.FindByTitleUnique` | src/services/CreateTransactionService.ts:33-35 | in a store with unique titles the category found for a title is the only one with it |
| `Ledger.FindCategory` | src/services/CreateTransactionService.ts:33-35 | the store lookup by title returns what `FindByTitle` specifies |
| `Ledger.FindTransaction` | src/services/DeleteTransactionService.ts:12-14 | returns a position holding a transaction with the identifier, or nothing exactly when no transaction has it |
| `Ledger.AcceptedKeepsTotalNonNegative` | src/services/CreateTransactionService.ts:25-29 | a non-negative transaction the solvency rule lets through never takes a non-negative total below zero |
| `Ledger.WithoutIdMembers` | src/services/DeleteTransactionService.ts:20 | after removal no transaction has the identifier and every other transaction is still there |
| `Ledger.WithoutIdAppend` | src/services/DeleteTransactionService.ts:20 | removal works piecewise on a split sequence, so the kept transactions stay in their relative order |
| `Ledger.RemoveAtIsWithoutId` | src/services/DeleteTransactionService.ts:12-20 | removing the transaction found at a position, when no other shares its identifier, is removing every transaction with that identifier |
| `Ledger.SaveCategoriesKeepsConsistent` | src/services/ImportTransactionsService.ts:70-76 | saving distinct new titles under fresh identifiers keeps the store invariant |
| `Ledger.SaveTransactionsKeepsConsistent` | src/services/ImportTransactionsService.ts:80-89 | saving transactions with fresh identifiers that refer to stored categories keeps the store invariant |
| `Ledger.BoundInStore` | src/services/ImportTransactionsService.ts:78-85 | a category found among the new and the fetched ones is in the category store after the save |
| `Ledger.Ledger.SaveCategories` | src/services/ImportTransactionsService.ts:70-76 | the new categories are appended with the next identifiers; the invariant holds and the transactions are untouched |
| `Ledger.Ledger.SaveTransactions` | src/services/ImportTransactionsService.ts:89 | the batch is appended; the invariant holds and the categories are untouched |
| `Ledger.Ledger.CreateTransaction` | src/services/CreateTransactionService.ts:17-64 | fails exactly when the type is outcome and the value is strictly above the total before the call (so income always passes and an outcome equal to the total passes), and then changes nothing; otherwise appends exactly one transaction with the given title, value and type and a fresh identifier. If a category with the title exists, the categories stay as they were and the transaction refers to it; if not, exactly one category with that title is appended and the transaction refers to its fresh identifier |
| `Ledger.Ledger.DeleteTransaction` | src/services/DeleteTransactionService.ts:9-21 | fails exactly when no transaction has the identifier, and then changes nothing; otherwise the transactions are the old ones without that identifier; categories are never changed |
| `Ledger.Ledger.ImportTransactions` | src/services/ImportTransactionsService.ts:25-94 | appends the categories for the new titles (distinct, none already stored) with fresh identifiers, and one transaction per kept record in record order, each with the record's trimmed fields, a fresh identifier and a stored category whose title equals the record's category field; no error path, so no solvency or type check |

## Left out

- CSV tokenisation by `csv-parse` (quoting, delimiters, line splitting, its check that every record has the same number of fields) is not modelled: the import takes the records already split into fields.
- File I/O is not modelled: opening the uploaded file, joining its path and deleting it after the save. Deleting the source file after a successful import is not represented.
- TypeORM is replaced by sequences and an identifier counter. This leaves out identifier and timestamp generation, relation loading and the SQL of `In(...)`. An empty `In(...)` list is treated as matching nothing.
- Failures of the store (a rejected batch insert, an unreadable stream) are not modelled: every save succeeds.
- `Number(...)` coercion and floating-point sums in `getBalance` are not modelled: values are unbounded integers. The import's text-to-number conversion is the parameter `toNumber`.
- Asynchrony and the check-then-write race between concurrent creates and imports are not modelled: each operation runs alone.
- Error messages and HTTP status codes are not modelled; a failure is an `Err` value.
- HTTP routing and the upload middleware are not part of this model.
- Ledger.Ledger.ImportTransactions: the source relies on the store returning the fetched categories, and the model keeps them in store order. Since titles are unique, that order does not affect which category a transaction is bound to.
