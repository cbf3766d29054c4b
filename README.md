# Budgetoria expense tracker: the local-storage repositories

This project models the part of the Budgetoria personal-finance web app that
holds state. That part is two repositories kept in the browser's key-value
storage, and the submit handler of the expense form.

- **Category repository** (`src/hooks/useCategories.ts`). It keeps the list
  of categories under the key `"categories"`. The first read that finds the
  key absent writes four default categories and returns them. Add appends a
  record with a fresh id. Edit replaces every element with the input's id
  (`map`). Delete keeps the elements with another id (`filter`). Each of the
  three is a read-modify-write of the whole array.
- **Expense repository** (`src/hooks/useExpenses.ts`). It keeps the list of
  expenses under the key `"expenses"`, newest first. A read of an absent key
  returns the empty list and writes nothing. Add puts a record with a fresh id
  and a timestamp in front.
- **Expense form** (`src/components/ExpenseForm.tsx`, `handleSubmit`). If the
  description, the amount or the selected category is empty, it does nothing.
  Otherwise it looks up the chosen category's name in the form's own table
  (the empty string if no entry matches). It adds the expense and clears the
  three fields.

Layout:

- `storage.dfy` (module `Storage`): the `Category` and `Expense` records, and the
  `LocalStorage` class whose one field is a `map<string, Stored>`. `Stored` is
  what a key holds once its JSON text is parsed: a category array or an
  expense array.
- `categories.dfy` (module `Categories`): the seed list and the two list
  transforms. These are functions, with lemmas about them. Beside them are
  functions that give the store contents after each operation, and methods over
  a `LocalStorage` object that are proved against those functions.
- `expenses.dfy` (module `Expenses`): the same layout for expenses.
- `expense_form.dfy` (module `ExpenseForm`): the form's category table, the
  name lookup, and a `Form` class with the three input fields and
  `HandleSubmit`.

Modelling decisions:

- `JSON.stringify` followed by `JSON.parse` is taken as the identity, so a key
  holds the parsed array directly.
- `WellTyped` states that `"categories"` holds a category array and
  `"expenses"` an expense array. Every operation requires it and keeps it. It
  stands for the TypeScript types of what the two repositories write.
- An absent key models the `!stored` test. `JSON.stringify` of an array never
  yields the empty string, so an empty string is not reachable through this
  code. A stored empty array counts as present: an emptied category list is
  not seeded again.
- These values come in as parameters:
  - `crypto.randomUUID()` is the `newId` parameter;
  - `new Date().toISOString()` is the `now` parameter;
  - `Number(amount)` is the `number: string -> int` function parameter.

  The code does not guarantee a fresh id. So no method requires one. The
  lemmas about distinct ids take fresh ids as a hypothesis.
- Facts about the code that bound what is modelled:
  - The expense repository has no edit and no delete.
  - The dashboard does no aggregation: its chart data
    (`src/components/Dashboard.tsx:5-17`) is hard-coded.
  - The form looks names up in its own fixed table of four categories, not in
    the category repository. That table equals the repository's seed list
    today. A category added through the repository cannot be chosen.
    Renaming a category does not change the name the form sends.

## Model

| member | source | states |
|---|---|---|
| Storage.LocalStorage.GetItem | src/hooks/useCategories.ts:14 | reading a key gives its value when the key is present, and null (`None`) when it is absent |
| Storage.LocalStorage.SetItem | src/hooks/useCategories.ts:23 | writing a key sets that key to the value and leaves every other key as it was |
| Categories.DefaultCategories | src/hooks/useCategories.ts:6-11 | exactly four seed categories, with ids "1"–"4" in seed order, all ids distinct |
| Categories.ReplaceById | src/hooks/useCategories.ts:52-54 | the length is kept; each position holding the input's id becomes the input record; every other position is unchanged |
| Categories.RemoveById | src/hooks/useCategories.ts:66 | a record survives exactly when it was in the list and its id differs from the given id; the list never grows |
| Categories.ReplaceUnknownId | src/hooks/useCategories.ts:51-55 | if no element has the input's id, the list is unchanged |
| Categories.ReplaceKeepsIds | src/hooks/useCategories.ts:52-54 | every position keeps its id, so distinct ids stay distinct after an edit |
| Categories.ReplaceExactlyOne | src/hooks/useCategories.ts:52-54 | if ids are distinct and position k holds the input's id, the result is the old list with just position k replaced |
| Categories.RemoveUnknownId | src/hooks/useCategories.ts:65-67 | deleting an id that no element has leaves the list unchanged |
| Categories.RemoveLeavesNoId | src/hooks/useCategories.ts:66 | after a delete, no element has the deleted id |
| Categories.RemoveIdempotent | src/hooks/useCategories.ts:66 | filtering twice by the same id gives the same list as filtering once |
| Categories.RemoveIsSubsequence | src/hooks/useCategories.ts:66 | the remaining elements are a subsequence of the old list, in the same relative order |
| Categories.RemoveLength | src/hooks/useCategories.ts:66 | the list shrinks by exactly the number of elements with the id |
| Categories.CountDistinct | src/hooks/useCategories.ts:66 | if ids are distinct, at most one element has a given id, and exactly one if the id is present |
| Categories.RemoveExactlyOne | src/hooks/useCategories.ts:64-68 | if ids are distinct, deleting a present id removes exactly one record |
| Categories.RemoveKeepsDistinct | src/hooks/useCategories.ts:66 | a delete keeps stored ids distinct |
| Categories.AppendKeepsDistinct | src/hooks/useCategories.ts:36-40 | appending a record whose id is not yet in the list keeps ids distinct |
| Categories.AfterRead | src/hooks/useCategories.ts:13-20 | after a read the "categories" key is always present and the store stays well typed |
| Categories.WithCategories | src/hooks/useCategories.ts:22-24 | writing a list makes the next read return that list; every other key, present or absent, is unchanged |
| Categories.ReadIdempotent | src/hooks/useCategories.ts:13-20 | a second read returns the same list as the first and writes nothing more |
| Categories.WriteBackIsRead | src/hooks/useCategories.ts:13-24 | writing back the list a read returned leaves the store exactly as the read left it |
| Categories.EditUnknownIdIsRead | src/hooks/useCategories.ts:50-55 | an edit of an unknown id leaves the store as a plain read leaves it: unchanged, or just seeded |
| Categories.DeleteUnknownIdIsRead | src/hooks/useCategories.ts:64-67 | a delete of an unknown id leaves the store as a plain read leaves it: unchanged, or just seeded |
| Categories.DeleteTwice | src/hooks/useCategories.ts:64-67 | two deletes of the same id leave the store as one delete does |
| Categories.OperationsKeepDistinct | src/hooks/useCategories.ts:13-67 | read, edit and delete keep stored ids distinct; so does add, when its id is new |
| Categories.StoredCategories | src/hooks/useCategories.ts:13-20 | what a read returns: the four defaults when the key is absent, exactly the stored array when it is present |
| Categories.AfterAdd | src/hooks/useCategories.ts:35-41 | the store after an add: the list grows by one, the old list is its prefix in the same positions, the new record is last; only "categories" changes |
| Categories.AfterEdit | src/hooks/useCategories.ts:50-55 | the store after an edit: the length is kept, positions with the input's id hold the input, all others are unchanged; only "categories" changes |
| Categories.AfterDelete | src/hooks/useCategories.ts:64-67 | the store after a delete: a record remains exactly when it was there and its id differs; only "categories" changes |
| Categories.GetStoredCategories | src/hooks/useCategories.ts:13-20 | key absent: writes exactly the four defaults under "categories" and nothing else, and returns them. Key present: returns the stored list and writes nothing |
| Categories.SetStoredCategories | src/hooks/useCategories.ts:22-24 | writes the list under "categories" only |
| Categories.AddCategory | src/hooks/useCategories.ts:35-43 | returns the record with the input name and colour and the supplied id; the stored list becomes the (possibly just seeded) old list with that record appended; no other key changes |
| Categories.EditCategory | src/hooks/useCategories.ts:50-57 | returns the input; the stored list becomes the replace-by-id of the (possibly just seeded) old list; no other key changes |
| Categories.DeleteCategory | src/hooks/useCategories.ts:64-69 | returns the id; the stored list becomes the filter-by-id of the (possibly just seeded) old list; no other key changes |
| Expenses.StoredExpenses | src/hooks/useExpenses.ts:13-16 | what a read returns: the empty list when the key is absent, exactly the stored array when it is present |
| Expenses.MakeExpense | src/hooks/useExpenses.ts:32-36 | the new expense keeps the input description, amount and category unchanged, and carries the supplied id and date |
| Expenses.AfterAdd | src/hooks/useExpenses.ts:38-39 | after an add the next read returns the new record followed by the old list; every other key, "categories" included, is unchanged |
| Expenses.PrependKeepsDistinct | src/hooks/useExpenses.ts:32-39 | adding an expense whose id is not yet stored keeps expense ids distinct |
| Expenses.AddsPrepend | src/hooks/useExpenses.ts:30-41 | after a run of adds the list is the added records, newest first, then the list from before |
| Expenses.GetStoredExpenses | src/hooks/useExpenses.ts:13-16 | writes nothing; returns the empty list when the key is absent and the stored list when it is present |
| Expenses.SetStoredExpenses | src/hooks/useExpenses.ts:18-20 | writes the list under "expenses" only |
| Expenses.AddExpense | src/hooks/useExpenses.ts:30-41 | returns the created record; it is the head of the stored list, and the old list follows it unchanged; no other key changes |
| ExpenseForm.FormCategories | src/components/ExpenseForm.tsx:17-22 | the form's table has four entries with distinct ids |
| ExpenseForm.FormTableIsSeedList | src/components/ExpenseForm.tsx:17-22 | the form's table is the same list as the category repository's four seed categories |
| ExpenseForm.FindCategoryName | src/components/ExpenseForm.tsx:35 | the name of the first entry whose id equals the selection, or the empty string if no entry matches |
| ExpenseForm.LookupUnique | src/components/ExpenseForm.tsx:35 | if ids are distinct, the lookup gives the name of the one matching entry |
| ExpenseForm.FormLookup | src/components/ExpenseForm.tsx:17-35 | with the form's table, ids "1"–"4" give the four names and any other selection gives the empty string |
| ExpenseForm.Form.constructor | src/components/ExpenseForm.tsx:13-15 | the three fields start empty |
| ExpenseForm.Form.HandleSubmit | src/components/ExpenseForm.tsx:24-51 | if any field is empty: no expense is added, the store is unchanged and the fields keep their values. Otherwise: exactly one expense is added, with the entered description, the coerced amount and the looked-up category name, and all three fields become empty |

## Left out

- React rendering, JSX markup and the input change handlers: presentation.
- The react-query layer (`useQuery`, `useMutation`, `invalidateQueries`, the
  promises). It is cache and scheduling. Each mutation is modelled as a
  synchronous method, so the race between back-to-back mutations does not
  arise.
- Toast notifications: user-facing side effects.
- `JSON.stringify`/`JSON.parse` and the exception for malformed stored text.
  These are foreign calls. The store holds parsed arrays, and the
  serialization-failure path is not modelled.
- `crypto.randomUUID()`, `new Date().toISOString()` and `Number(amount)`.
  These are foreign and non-deterministic, so they are parameters. Floating
  point is not modelled: an amount is an `int`.
- `src/components/Dashboard.tsx`, `src/components/ExpenseList.tsx`,
  `src/components/CategoryList.tsx` (except its `Category` type) and
  `src/pages/Index.tsx`: presentation over hard-coded arrays.
- Storage.LocalStorage.SetItem: storage writes are modelled as never
  failing. In the browser `localStorage.setItem` can throw (quota exceeded,
  storage disabled); the mutation then rejects, `handleSubmit` stops at its
  `await`, and the form fields are not cleared. That path is not captured.
