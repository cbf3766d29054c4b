/** The submit handler of the expense form in
    `src/components/ExpenseForm.tsx`: a required-field guard, a lookup of
    the chosen category's name in the form's own table, one call of the
    expense repository's add, and a reset of the three input fields. */
module ExpenseForm {
  import opened Storage
  import Categories
  import Expenses

  /** The category table the form offers; the form does not read it from
      the category repository. */
  function FormCategories(): (r: seq<Category>)
    ensures |r| == 4
    ensures Categories.DistinctIds(r)
  {
    [ Category("1", "Alimentação", "#FF719A"),
      Category("2", "Transporte", "#0EA5E9"),
      Category("3", "Lazer", "#9b87f5"),
      Category("4", "Moradia", "#FFA99F") ]
  }

  /** The form's table and the category repository's seed list agree. */
  lemma FormTableIsSeedList()
    ensures FormCategories() == Categories.DefaultCategories()
  {
  }

  /** `table.find(c => c.id === id)?.name || ''`: the name of the first
      entry with the id, or the empty string when there is none. */
  function FindCategoryName(table: seq<Category>, id: string): (r: string)
    ensures !Categories.HasId(table, id) ==> r == ""
    ensures Categories.HasId(table, id) ==>
      exists i :: 0 <= i < |table| && table[i].id == id && r == table[i].name &&
        forall j :: 0 <= j < i ==> table[j].id != id
  {
    if table == [] then ""
    else if table[0].id == id then table[0].name
    else FindCategoryName(table[1..], id)
  }

  /** With distinct ids the lookup yields the name of the one matching entry. */
  lemma LookupUnique(table: seq<Category>, id: string, k: nat)
    requires Categories.DistinctIds(table)
    requires k < |table| && table[k].id == id
    ensures FindCategoryName(table, id) == table[k].name
  {
  }

  /** The name the form sends for each selectable id: "1" to "4" pick the
      four table entries, any other value yields the empty string. */
  lemma FormLookup(id: string)
    ensures FindCategoryName(FormCategories(), id) ==
      if id == "1" then "Alimentação"
      else if id == "2" then "Transporte"
      else if id == "3" then "Lazer"
      else if id == "4" then "Moradia"
      else ""
  {
  }

  /** What a submit did: nothing, because a field was empty, or an add. */
  datatype SubmitOutcome = MissingFields | Submitted(expense: Expense)

  /** The three controlled inputs of the form. */
  class Form {
    var description: string
    var amount: string
    var selectedCategory: string

    constructor ()
      ensures description == "" && amount == "" && selectedCategory == ""
    {
      description, amount, selectedCategory := "", "", "";
    }

    /** `handleSubmit`. `number` stands for `Number(...)`, and `newId` and
        `now` for the id and timestamp the repository's add draws. */
    method HandleSubmit(store: LocalStorage, number: string -> int, newId: string, now: string)
      returns (outcome: SubmitOutcome)
      requires WellTyped(store.items)
      modifies this, store
      ensures old(description) == "" || old(amount) == "" || old(selectedCategory) == "" ==>
        && outcome == MissingFields
        && store.items == old(store.items)
        && description == old(description)
        && amount == old(amount)
        && selectedCategory == old(selectedCategory)
      ensures old(description) != "" && old(amount) != "" && old(selectedCategory) != "" ==>
        var e := Expenses.MakeExpense(
          Expenses.NewExpense(old(description), number(old(amount)),
                              FindCategoryName(FormCategories(), old(selectedCategory))),
          newId, now);
        && outcome == Submitted(e)
        && store.items == Expenses.AfterAdd(old(store.items), e)
        && description == "" && amount == "" && selectedCategory == ""
    {
      if description == "" || amount == "" || selectedCategory == "" {
        return MissingFields;
      }
      var category := FindCategoryName(FormCategories(), selectedCategory);
      var e := Expenses.AddExpense(store, Expenses.NewExpense(description, number(amount), category), newId, now);
      outcome := Submitted(e);
      description := "";
      amount := "";
      selectedCategory := "";
    }
  }
}
