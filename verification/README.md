# MyFinance backend, modelled in Dafny

MyFinance is a personal-finance web application. Its NestJS/TypeORM backend stores
three tables: user accounts, categories and transactions. A category and a
transaction belong to one user, and a transaction may point at one of its owner's
categories. This project models the backend's services over those tables and proves
what they promise:

- **Categories** (`categories.dfy`, module `Categories`). Per-owner CRUD. Names are
  stored lower-cased and are unique per owner. Every lookup is scoped to the caller.
- **Transactions** (`transactions.dfy`, module `Transactions`). Per-owner CRUD. The
  listing is filtered and sorted newest first. A category given in a request must be
  the caller's.
- **Summaries** (`summaries.dfy`, module `Summaries`). The income/expense/balance
  summary, and the per-category breakdown. That breakdown is a fold into an
  insertion-ordered Map, labelling uncategorised rows `'Outros'` with colour `'#808080'`.
- **Users** (`users.dfy`, module `Users`). The administrator's listing without password
  hashes, and account deletion with its ON DELETE CASCADE.
- **Roles** (`roles.dfy`, module `Roles`). The `RolesGuard` decision.
- **Validation** (`validation.dfy`, module `Validation`). The class-validator
  constraints of the four request DTOs. Their two regular expressions are modelled as
  a small regex datatype with a full-match semantics.
- **Dates** (`dates.dfy`, module `Dates`). `YYYY-MM-DD` strings read as dates and
  written back. It proves that comparing such strings as text orders them as the
  dates they name. That is how the date-range filters compare on SQLite
  (`MyFinance_backend/src/app.module.ts:17`), where the `date` column holds text.
  The `backend/` copy runs on PostgreSQL (`backend/src/app.module.ts:17`), where
  the comparison is on dates anyway.
- **Store** (`store.dfy`, module `Store`). The shared state. Class `Store.Db` holds the
  three tables as sequences of rows, plus the two id sequences. It also holds the
  row-level statements the services issue (delete-where, save, cascade, set-null) and
  the database invariant `Consistent`:
  - unique ids;
  - lower-case names, unique per owner;
  - owned rows;
  - category references that stay inside the owner's categories.

  Every mutating service method requires and re-establishes `Db.Valid()`.
- **Domain** (`domain.dfy`) and **Seqs** (`seqs.dfy`) hold the entity values and
  generic sequence helpers: filter, insertion sort, and byte-wise string order.

The repository has two copies of the transaction service:
`backend/src/transactions/transactions.service.ts` and
`MyFinance_backend/src/transactions/transactions.service.ts`. They have the same CRUD
logic. The first also converts amounts with `parseFloat` and has the two summary
reports. Amounts are integer cents here, so one model covers both copies. The rows
below cite the `backend/` copy, except the two date-order rows, which cite the SQLite
copy where the text comparison happens.

Mutating operations are `method`s on `Db` with `modifies db`. Each states the error
cases, the unchanged state on error, and the exact new tables on success. Queries are
functions over the tables. The two summary reports are methods with loops, proved
against specification functions (`Total`, `Grouped`), and the lemmas about those
functions state what the reports mean.

Where the code and its intent differ, the model follows the code:

- **Unowned category.** `createTransaction` and `updateTransaction` look the category up
  through `findOneCategory`, which throws NotFound. So a missing or foreign category
  gives NotFound, not the BadRequest that the `if (!category)` branches announce. Those
  branches (`backend/src/transactions/transactions.service.ts:26-28` and `:103-105`)
  can never be reached.
- **Uncategorised label.** Uncategorised rows are labelled `'Outros'`, as the code does.
- **Falsy category id.** `createTransaction` treats a falsy `categoryId` (absent, null
  or 0) as no category. `updateTransaction` looks up any non-null id, 0 included.
- **Roles.** `user.entity.ts` declares no `role` column, but the guard and
  `findAllUsers` read one. The model gives `User` a `role` field.

## Model

| member | source | states |
|---|---|---|
| Domain.LowerIsLowerCase | MyFinance_backend/src/categories/categories.service.ts:33 | a name saved through `toLowerCase` contains no upper-case letter |
| Domain.LowerOfLowerCase | MyFinance_backend/src/categories/categories.service.ts:90 | lower-casing an already lower-case name changes nothing |
| Domain.LowerIdempotent | MyFinance_backend/src/categories/categories.service.ts:75 | lower-casing twice equals lower-casing once, so comparing a lowered request name with the stored lowered name is sound |
| Seqs.SortBy | MyFinance_backend/src/categories/categories.service.ts:54 | the ORDER BY result is sorted by the given total preorder and is a permutation of the input |
| Seqs.StrLeTotal | MyFinance_backend/src/categories/categories.service.ts:54 | byte-wise string order relates any two names |
| Seqs.StrLeTransitive | MyFinance_backend/src/categories/categories.service.ts:54 | byte-wise string order is transitive |
| Seqs.StrLeAntisymmetric | MyFinance_backend/src/categories/categories.service.ts:54 | two names ordered both ways are equal |
| Store.DeleteCategoryRow | MyFinance_backend/src/categories/categories.service.ts:103 | `DELETE WHERE {id, userId}` keeps exactly the other rows; nothing changes when no row matches |
| Store.DeleteCategoryRowRemovesOne | MyFinance_backend/src/categories/categories.service.ts:103-107 | when the owned row exists, exactly one row is affected |
| Store.SaveCategory | MyFinance_backend/src/categories/categories.service.ts:94 | after the save the table holds the new row and every row with another id, and nothing else |
| Store.DeleteCategoriesOf | MyFinance_backend/src/categories/entities/category.entity.ts:18 | the cascade keeps exactly the categories of other owners |
| Store.DeleteTransactionRow | backend/src/transactions/transactions.service.ts:123 | `DELETE WHERE {id, userId}` keeps exactly the other rows; nothing changes when no row matches |
| Store.DeleteTransactionRowRemovesOne | backend/src/transactions/transactions.service.ts:123-127 | when the owned row exists, exactly one row is affected |
| Store.SaveTransaction | backend/src/transactions/transactions.service.ts:114 | after the save the table holds the new row and every row with another id, and nothing else |
| Store.DeleteTransactionsOf | MyFinance_backend/src/transactions/entities/transaction.entity.ts:34 | the cascade keeps exactly the transactions of other owners |
| Store.DetachCategory | MyFinance_backend/src/transactions/entities/transaction.entity.ts:40 | ON DELETE SET NULL: same rows in the same order, and only references to the deleted category are cleared |
| Store.DeleteUserRow | MyFinance_backend/src/users/users.service.ts:40 | keeps exactly the accounts with another id |
| Store.DeleteUserRowRemovesOne | MyFinance_backend/src/users/users.service.ts:30-40 | deleting an existing account removes exactly one row |
| Store.CategoryInsertKeepsConsistent | MyFinance_backend/src/categories/categories.service.ts:32-40 | inserting a lower-cased, not-yet-used name for an existing owner under the next id keeps the database invariant |
| Store.CategorySaveKeepsConsistent | MyFinance_backend/src/categories/categories.service.ts:88-94 | saving a renamed category (same id and owner, name lower-case and free) keeps the invariant |
| Store.CategoryDeleteKeepsConsistent | MyFinance_backend/src/categories/categories.service.ts:103 | deleting a category and clearing its references keeps the invariant |
| Store.TransactionInsertKeepsConsistent | backend/src/transactions/transactions.service.ts:31-43 | inserting a row of an existing owner, whose category is the owner's, keeps the invariant |
| Store.TransactionSaveKeepsConsistent | backend/src/transactions/transactions.service.ts:111-114 | saving a patched row with the same id and owner keeps the invariant |
| Store.TransactionDeleteKeepsConsistent | backend/src/transactions/transactions.service.ts:123 | deleting a transaction keeps the invariant |
| Store.UserDeleteKeepsConsistent | MyFinance_backend/src/users/users.service.ts:40 | deleting an account together with its cascaded rows keeps the invariant |
| Store.Db.constructor | MyFinance_backend/src/auth/entities/user.entity.ts:4-14 | a database holding only the signed-up accounts is consistent, and both id sequences start at 1 |
| Categories.FindOneCategory | MyFinance_backend/src/categories/categories.service.ts:59-69 | Ok exactly when the caller owns the id, and then the id/name/color projection of that row; otherwise NotFound |
| Categories.ByNameIsTotalPreorder | MyFinance_backend/src/categories/categories.service.ts:54 | ordering by name is a total preorder, so the sort is well defined |
| Categories.ViewsMembership | MyFinance_backend/src/categories/categories.service.ts:55 | a projected row is the projection of some table row, and every table row projects to one |
| Categories.FindAllCategories | MyFinance_backend/src/categories/categories.service.ts:51-57 | exactly the caller's categories, projected, each as often as stored, sorted by name |
| Categories.Renamed | MyFinance_backend/src/categories/categories.service.ts:88-91 | the update keeps the category's id and owner, and a lower-case stored name stays lower-case |
| Categories.NameTakenMeans | MyFinance_backend/src/categories/categories.service.ts:20-30 | with names stored lower-cased, the lookup of the lower-cased name finds a category exactly when one of the owner's names equals the requested one up to letter case: the duplicate check is case-insensitive |
| Categories.CreateCategory | MyFinance_backend/src/categories/categories.service.ts:17-49 | Ok iff the owner exists and has no category with the lower-cased name; then one row is appended under the next id; every failure is Conflict and leaves the database unchanged |
| Categories.UpdateCategory | MyFinance_backend/src/categories/categories.service.ts:71-99 | NotFound for a category the caller does not own; Conflict when a new, different name is taken; otherwise the row is saved with the lowered name when one is given and the colour when one is sent |
| Categories.RemoveCategory | MyFinance_backend/src/categories/categories.service.ts:101-108 | NotFound and nothing changes when the caller owns no such row; otherwise the row is deleted and its transactions lose their category |
| Transactions.NewestFirstIsTotalPreorder | backend/src/transactions/transactions.service.ts:71 | latest-date-first is a total preorder |
| Transactions.FindAllTransactions | backend/src/transactions/transactions.service.ts:51-78 | exactly the caller's rows that pass every given filter (type, category, date range), each as often as stored, latest date first |
| Transactions.FindOneTransaction | backend/src/transactions/transactions.service.ts:80-90 | Ok exactly when the caller owns the id, and then that row; otherwise NotFound |
| Transactions.Patched | backend/src/transactions/transactions.service.ts:111 | the update never changes a row's id or owner |
| Transactions.EmptyPatchKeepsRow | backend/src/transactions/transactions.service.ts:111 | an update body with no fields leaves the row as it is |
| Transactions.PatchIdempotent | backend/src/transactions/transactions.service.ts:97-111 | sending the same update twice gives the row the first one gave |
| Transactions.CreateTransaction | backend/src/transactions/transactions.service.ts:20-49 | NotFound when a truthy category id is not the caller's; BadRequest when the owner row is missing; otherwise the row (falsy category id stored as none) is appended under the next id; failures change nothing |
| Transactions.UpdateTransaction | backend/src/transactions/transactions.service.ts:92-120 | NotFound for a transaction or a new category the caller does not own; BadRequest when a NOT NULL field is nulled; otherwise the patched row replaces the old one |
| Transactions.RemoveTransaction | backend/src/transactions/transactions.service.ts:122-128 | NotFound and nothing changes when no row is affected; otherwise exactly that row is deleted |
| Summaries.TotalAppend | backend/src/transactions/transactions.service.ts:144-151 | the per-type total of two row lists placed end to end is the sum of their totals |
| Summaries.TotalPermutation | backend/src/transactions/transactions.service.ts:136-151 | the per-type total does not depend on the order the rows come in |
| Summaries.TotalIgnoresOtherTypes | backend/src/transactions/transactions.service.ts:146-150 | filters that agree on rows of a type give the same total for that type |
| Summaries.GetFinancialSummary | backend/src/transactions/transactions.service.ts:135-159 | income and expense are the per-type totals of the caller's rows; balance is their difference |
| Summaries.SummaryAgreesWithListing | backend/src/transactions/transactions.service.ts:135-159 | the summary's total for a type equals the sum over the listing filtered by that type |
| Summaries.JoinedCategory | backend/src/transactions/transactions.service.ts:182 | the left join attaches the category with the referenced id, or none when no such category exists |
| Summaries.GroupIndex | backend/src/transactions/transactions.service.ts:203 | `map.get` finds the entry with the name, or reports that there is none |
| Summaries.GroupedStep | backend/src/transactions/transactions.service.ts:197-211 | folding in one more row applies one Map round for that row's type and leaves the other Map alone |
| Summaries.GetTransactionsSummaryByCategory | backend/src/transactions/transactions.service.ts:170-226 | each list is the fold of the caller's rows in the date range into the Map of that type |
| Summaries.AddToEntries | backend/src/transactions/transactions.service.ts:203-209 | one get/add/set round keeps names distinct, leaves other entries alone, grows the existing entry or appends a new one |
| Summaries.GroupedEntries | backend/src/transactions/transactions.service.ts:194-223 | the entries have distinct names, one per label of a row of the type; each amount is the sum over the rows with that label; each colour is the colour of the first such row |
| Summaries.GroupsTotalAddTo | backend/src/transactions/transactions.service.ts:203-205 | one Map round adds the row's amount to the sum of the entries |
| Summaries.GroupedTotal | backend/src/transactions/transactions.service.ts:197-223 | the entries of a type add up to the total of that type over the same rows |
| Summaries.ByCategoryAgreesWithSummary | backend/src/transactions/transactions.service.ts:170-226 | with no date range, the by-category lists add up to the financial summary's totals |
| Users.FindAllUsers | MyFinance_backend/src/users/users.service.ts:15-21 | every account, in the model's table order, with its id, email and role, and no password hash |
| Users.DeleteUser | MyFinance_backend/src/users/users.service.ts:23-41 | NotFound and nothing changes when no account has the id; otherwise that account and every category and transaction it owns are deleted |
| Users.DeleteUserCascade | MyFinance_backend/src/transactions/entities/transaction.entity.ts:34 | after the cascade nothing refers to the deleted account, and every other account keeps all its rows |
| Roles.SomeRoleIs | MyFinance_backend/src/auth/guards/roles.guard.ts:30 | `some(role => user.role === role)` holds exactly when the caller's role is listed |
| Roles.CanActivateMeans | MyFinance_backend/src/auth/guards/roles.guard.ts:11-33 | allowed iff no metadata is set, or the caller's role is in the metadata that takes effect (the handler's before the class's) |
| Roles.NoMetadataAllowsAll | MyFinance_backend/src/auth/guards/roles.guard.ts:20-22 | a route with no roles metadata admits every authenticated caller |
| Roles.EmptyRolesDenyAll | MyFinance_backend/src/auth/guards/roles.guard.ts:30 | an empty roles list that takes effect denies every caller |
| Roles.HandlerOverridesController | MyFinance_backend/src/auth/guards/roles.guard.ts:14-17 | handler metadata overrides whatever the controller class declares |
| Roles.UsersRoutesAreAdminOnly | MyFinance_backend/src/users/users.controller.ts:11-12 | the users routes admit a caller iff the caller's role is ADMIN |
| Validation.ColorPatternMeans | MyFinance_backend/src/categories/dto/create-category.dto.ts:12 | the colour regex accepts exactly `#` followed by 3 or 6 hex digits, in either case |
| Validation.ShortColorAccepted | MyFinance_backend/src/categories/dto/create-category.dto.ts:12 | `#abc` is accepted |
| Validation.LongColorAccepted | MyFinance_backend/src/categories/dto/create-category.dto.ts:12 | `#A1B2C3` is accepted |
| Validation.ColorsRejected | MyFinance_backend/src/categories/dto/create-category.dto.ts:12 | `#abcd`, `abc` and `#GGG` are rejected |
| Validation.DatePatternMeans | MyFinance_backend/src/transactions/dto/create-transaction.dto.ts:25 | the date regex accepts exactly four digits, a dash, two digits, a dash, two digits |
| Validation.DateShapeIsSyntactic | MyFinance_backend/src/transactions/dto/create-transaction.dto.ts:25 | the date check does no calendar validation (`2024-13-45` passes), but needs the digit counts (`2024-1-05` and `24-01-05` fail) |
| Validation.CreateCategoryMeans | MyFinance_backend/src/categories/dto/create-category.dto.ts:4-14 | a create-category body is valid iff it has a string name of 1 to 50 characters, and any colour that is neither absent nor null is a hex colour |
| Validation.UpdateCategoryMeans | backend/src/categories/dto/update-category.dto.ts:4-15 | an update-category body is valid iff any name sent is a string of 1 to 50 characters and any colour sent is a hex colour |
| Validation.CreateTransactionMeans | MyFinance_backend/src/transactions/dto/create-transaction.dto.ts:14-39 | a create-transaction body is valid iff it has: an amount of at least 0.01; a non-empty description; a date of the `YYYY-MM-DD` shape; type income or expense; notes that are a string when sent; a category id that is an integer when sent |
| Validation.UpdateTransactionMeans | MyFinance_backend/src/transactions/dto/update-transaction.dto.ts:13-39 | an update-transaction body is valid iff every field that is sent (not absent, not null) meets the create constraint for that field, except that the description may be empty |
| Validation.UpdatesAcceptCreateBodies | MyFinance_backend/src/transactions/dto/update-transaction.dto.ts:13-39 | every valid create body is a valid update body, and the empty body is a valid update |
| Validation.UndeclaredKeysIgnored | MyFinance_backend/src/transactions/dto/create-transaction.dto.ts:14-39 | keys that a DTO does not declare neither help nor hurt validation |
| Dates.ParseDate | MyFinance_backend/src/transactions/entities/transaction.entity.ts:19-20 | a `YYYY-MM-DD` string names a year below 10000 and a month and day below 100 |
| Dates.ParseFormat | MyFinance_backend/src/transactions/entities/transaction.entity.ts:19-20 | writing a date and reading it back gives the date |
| Dates.FormatParse | MyFinance_backend/src/transactions/entities/transaction.entity.ts:19-20 | reading a date string and writing it back gives the string |
| Dates.ParseDateInjective | MyFinance_backend/src/transactions/entities/transaction.entity.ts:19-20 | two date strings name the same date only when they are the same string |
| Dates.DigitOrder | MyFinance_backend/src/transactions/transactions.service.ts:67-72 | on digit strings of one length, text order is numeric order, and equal values mean equal strings |
| Dates.DateStringOrder | MyFinance_backend/src/transactions/transactions.service.ts:67-72 | comparing two `YYYY-MM-DD` strings as text orders them exactly as the dates they name, so on SQLite, where the `date` column holds text, the range filters are date filters |
| Dates.AcceptedDatesParse | MyFinance_backend/src/transactions/dto/create-transaction.dto.ts:25 | every date the DTOs accept reads as a date and writes back to the same string |

## Left out

- Authentication (JWT strategy, bcrypt hashing, sign-up and login in the auth service) and the admin seeder: the model takes the authenticated caller's id as a parameter and takes the initial accounts as given.
- Controllers, modules and the Nest wiring (route parameters, `ParseIntPipe`, guards attached by decorators): the services are modelled directly. The guard's decision is modelled in `Roles`.
- Floating point: `parseFloat` on amounts, `toFixed(2)` on the totals, and the decimal(10,2) rounding of the column. Amounts are integer cents, so every sum is exact.
- Turning the JSON `amount` (a real number) into cents: the validator works on reals, the services on integer cents. No decoder between the two is modelled.
- The `createdAt` column, and the `user`/`category` objects the services attach to or strip from returned rows: only the stored columns are modelled.
- Mass assignment: with no whitelist in the validation pipe, `Object.assign` copies body keys that the DTO does not declare onto the entity. The model's patch types carry only the declared fields.
- Concurrency: the check-then-insert races (two creates with the same name) cannot happen in a sequential model.
- Query-string typing: a non-numeric `categoryId`, a malformed date or an unknown `type` in the listing's query are not modelled. Filters are typed values, and an empty parameter is an absent one.
- Calendar validity: dates are (year, month, day) triples with no month or day bounds beyond two digits, as the DTO regex allows.
- Database failures other than the foreign-key and NOT NULL violations the services catch, and the id-sequence value a failed insert may consume.
- `backend/src/main.ts` installs no global validation pipe. Which DTO checks run on a request there is a property of the wiring and is not part of this model.
- Case folding beyond ASCII: `Lower` folds only `A`–`Z`; JavaScript's `toLowerCase` also folds other scripts.
- `MaxLength` counts the characters of the model string. class-validator counts the same way (a surrogate pair is one character), except that it does not count the variation selectors U+FE0E and U+FE0F; that exception is not modelled.
- Row order: the user listing, the financial summary's query and the by-category query have no ORDER BY, so the database may return their rows in any order. The model returns them in table order, and a save moves the saved row to the end of its table. The order of the by-category entries and the colour of each entry (the first row's) therefore follow the model's choice of order; the totals do not depend on it (`Summaries.TotalPermutation`).
- Transactions.Patched: its contract states only that the id and the owner are kept. The other fields are given by `Assign`/`AssignNullable`/`PatchedCategory`, whose behaviour `EmptyPatchKeepsRow`, `PatchIdempotent` and `UpdateTransaction`'s postcondition pin down.
- The password-hash column is carried in `User` but never read: login is outside the model.
