/** The expense repository of `src/hooks/useExpenses.ts`: a list of
    expenses persisted under the "expenses" key, most recent first. A read
    of an absent key yields the empty list and, unlike the category
    repository, writes nothing. The only mutation is the prepending add. */
module Expenses {
  import opened Storage

  /** The fields a caller supplies to `addExpense`: everything but the id
      and the date, which the repository fills in. */
  datatype NewExpense = NewExpense(description: string, amount: int, category: string)

  /** What `getStoredExpenses` returns for store contents `m`. */
  function StoredExpenses(m: map<string, Stored>): (r: seq<Expense>)
    requires WellTyped(m)
    ensures ExpensesKey !in m ==> r == []
    ensures ExpensesKey in m ==> m[ExpensesKey] == ExpenseArray(r)
  {
    if ExpensesKey in m then m[ExpensesKey].expenses else []
  }

  /** The record `addExpense` builds from the input, the id (the value of
      `crypto.randomUUID()`) and the date (the value of
      `new Date().toISOString()`). */
  function MakeExpense(newExpense: NewExpense, newId: string, now: string): (e: Expense)
    ensures e.description == newExpense.description
    ensures e.amount == newExpense.amount
    ensures e.category == newExpense.category
    ensures e.id == newId && e.date == now
  {
    Expense(newId, newExpense.description, newExpense.amount, newExpense.category, now)
  }

  /** The store contents after `addExpense` put `e` in front. */
  function AfterAdd(m: map<string, Stored>, e: Expense): (r: map<string, Stored>)
    requires WellTyped(m)
    ensures WellTyped(r) && StoredExpenses(r) == [e] + StoredExpenses(m)
    ensures OnlyKeyChanged(m, r, ExpensesKey)
  {
    m[ExpensesKey := ExpenseArray([e] + StoredExpenses(m))]
  }

  /** No two expenses share an id. */
  predicate DistinctExpenseIds(es: seq<Expense>) {
    forall i, j :: 0 <= i < j < |es| ==> es[i].id != es[j].id
  }

  /** Putting an expense with a new id in front keeps ids distinct. */
  lemma PrependKeepsDistinct(m: map<string, Stored>, e: Expense)
    requires WellTyped(m) && DistinctExpenseIds(StoredExpenses(m))
    requires forall x :: x in StoredExpenses(m) ==> x.id != e.id
    ensures DistinctExpenseIds(StoredExpenses(AfterAdd(m, e)))
  {
    var r := StoredExpenses(AfterAdd(m, e));
    forall i, j | 0 <= i < j < |r| ensures r[i].id != r[j].id {
      if i == 0 { assert r[j] in StoredExpenses(m); }
    }
  }

  /** The store after adding `es[0]`, then `es[1]`, and so on. */
  function AddAll(m: map<string, Stored>, es: seq<Expense>): (r: map<string, Stored>)
    requires WellTyped(m)
    ensures WellTyped(r)
    decreases |es|
  {
    if es == [] then m else AfterAdd(AddAll(m, es[..|es| - 1]), es[|es| - 1])
  }

  function Reversed(es: seq<Expense>): seq<Expense>
    decreases |es|
  {
    if es == [] then [] else [es[|es| - 1]] + Reversed(es[..|es| - 1])
  }

  /** After a run of adds the list is the added records, newest first, followed
      by the list that was there before. */
  lemma {:induction false} AddsPrepend(m: map<string, Stored>, es: seq<Expense>)
    requires WellTyped(m)
    ensures WellTyped(AddAll(m, es))
    ensures StoredExpenses(AddAll(m, es)) == Reversed(es) + StoredExpenses(m)
  {
    if es != [] {
      var init, last := es[..|es| - 1], es[|es| - 1];
      AddsPrepend(m, init);
      var before := AddAll(m, init);
      assert AddAll(m, es) == AfterAdd(before, last);
      assert StoredExpenses(AfterAdd(before, last)) == [last] + (Reversed(init) + StoredExpenses(m));
      assert Reversed(es) == [last] + Reversed(init);
      assert [last] + (Reversed(init) + StoredExpenses(m)) == ([last] + Reversed(init)) + StoredExpenses(m);
    }
  }

  /** `getStoredExpenses`: reads only; the empty list when the key is absent. */
  method GetStoredExpenses(store: LocalStorage) returns (es: seq<Expense>)
    requires WellTyped(store.items)
    ensures ExpensesKey !in store.items ==> es == []
    ensures ExpensesKey in store.items ==> es == store.items[ExpensesKey].expenses
  {
    var stored := store.GetItem(ExpensesKey);
    es := if stored.Some? then stored.value.expenses else [];
  }

  /** `setStoredExpenses`: writes the "expenses" key and no other. */
  method SetStoredExpenses(store: LocalStorage, es: seq<Expense>)
    modifies store
    ensures store.items == old(store.items)[ExpensesKey := ExpenseArray(es)]
  {
    store.SetItem(ExpensesKey, ExpenseArray(es));
  }

  /** `addExpense`: prepends the new record and returns it. */
  method AddExpense(store: LocalStorage, newExpense: NewExpense, newId: string, now: string)
    returns (e: Expense)
    requires WellTyped(store.items)
    modifies store
    ensures e == MakeExpense(newExpense, newId, now)
    ensures store.items == AfterAdd(old(store.items), e)
    ensures StoredExpenses(store.items)[0] == e
    ensures StoredExpenses(store.items)[1..] == StoredExpenses(old(store.items))
  {
    e := MakeExpense(newExpense, newId, now);
    var current := GetStoredExpenses(store);
    var updated := [e] + current;
    SetStoredExpenses(store, updated);
  }
}
