/** The browser's key-value storage as the two repositories use it, and the
    two record types they persist there.

    The real store holds strings; each repository writes `JSON.stringify` of
    an array and reads it back with `JSON.parse`. Here that round trip is
    taken as the identity, so a key holds the array of records directly. */
module Storage {

  datatype Option<T> = None | Some(value: T)

  /** A spending category: an opaque id, a display name and a hex colour. */
  datatype Category = Category(id: string, name: string, color: string)

  /** A recorded expense. `category` is a free-text copy of a category's
      name, not a reference to a category's id. `amount` stands for the
      JavaScript number the form produces. */
  datatype Expense = Expense(id: string, description: string, amount: int, category: string, date: string)

  /** What one storage key holds once its JSON text is parsed. */
  datatype Stored = CategoryArray(categories: seq<Category>) | ExpenseArray(expenses: seq<Expense>)

  const CategoriesKey: string := "categories"
  const ExpensesKey: string := "expenses"

  /** The two keys hold what the two repositories write under them. */
  predicate WellTyped(m: map<string, Stored>) {
    && (CategoriesKey in m ==> m[CategoriesKey].CategoryArray?)
    && (ExpensesKey in m ==> m[ExpensesKey].ExpenseArray?)
  }

  /** `r` agrees with `m` on every key other than `key`: the same keys are
      present and they hold the same values. */
  ghost predicate OnlyKeyChanged(m: map<string, Stored>, r: map<string, Stored>, key: string) {
    forall k :: k != key ==> (k in r <==> k in m) && (k in m ==> r[k] == m[k])
  }

  /** `localStorage`: the only mutable state the repositories touch. */
  class LocalStorage {
    var items: map<string, Stored>

    constructor ()
      ensures items == map[]
    {
      items := map[];
    }

    /** `localStorage.getItem(key)`: `None` stands for `null`. */
    method GetItem(key: string) returns (v: Option<Stored>)
      ensures key in items ==> v == Some(items[key])
      ensures key !in items ==> v == None
    {
      v := if key in items then Some(items[key]) else None;
    }

    /** `localStorage.setItem(key, value)`: overwrites one key, nothing else. */
    method SetItem(key: string, value: Stored)
      modifies this
      ensures items == old(items)[key := value]
    {
      items := items[key := value];
    }
  }
}
