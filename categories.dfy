/** The category repository of `src/hooks/useCategories.ts`: a list of
    categories persisted under the "categories" key, seeded with four
    defaults on the first read that finds the key absent, and edited by
    whole-array read-modify-write (append, replace by id, remove by id). */
module Categories {
  import opened Storage

  /** The fields a caller supplies to `addCategory`: everything but the id. */
  datatype NewCategory = NewCategory(name: string, color: string)

  /** No two categories share an id. */
  predicate DistinctIds(cs: seq<Category>) {
    forall i, j :: 0 <= i < j < |cs| ==> cs[i].id != cs[j].id
  }

  predicate HasId(cs: seq<Category>, id: string) {
    exists i :: 0 <= i < |cs| && cs[i].id == id
  }

  /** The four categories a first read writes to an empty store, in seed order. */
  function DefaultCategories(): (r: seq<Category>)
    ensures |r| == 4
    ensures r[0].id == "1" && r[1].id == "2" && r[2].id == "3" && r[3].id == "4"
    ensures DistinctIds(r)
  {
    [ Category("1", "Alimentação", "#FF719A"),
      Category("2", "Transporte", "#0EA5E9"),
      Category("3", "Lazer", "#9b87f5"),
      Category("4", "Moradia", "#FFA99F") ]
  }

  // ---------------------------------------------------------------------
  // The list transforms: `map` with replace-by-id and `filter` by id.
  // ---------------------------------------------------------------------

  /** `categories.map(c => c.id === u.id ? u : c)`. */
  function ReplaceById(cs: seq<Category>, u: Category): (r: seq<Category>)
    ensures |r| == |cs|
    ensures forall i :: 0 <= i < |cs| && cs[i].id == u.id ==> r[i] == u
    ensures forall i :: 0 <= i < |cs| && cs[i].id != u.id ==> r[i] == cs[i]
  {
    if cs == [] then []
    else [if cs[0].id == u.id then u else cs[0]] + ReplaceById(cs[1..], u)
  }

  /** `categories.filter(c => c.id !== id)`. */
  function RemoveById(cs: seq<Category>, id: string): (r: seq<Category>)
    ensures |r| <= |cs|
    ensures forall c :: c in r <==> c in cs && c.id != id
  {
    if cs == [] then []
    else if cs[0].id == id then RemoveById(cs[1..], id)
    else [cs[0]] + RemoveById(cs[1..], id)
  }

  /** `a` is `b` with some elements dropped and the rest in their order. */
  predicate IsSubsequence(a: seq<Category>, b: seq<Category>)
    decreases |b|
  {
    if b == [] then a == []
    else (a != [] && a[0] == b[0] && IsSubsequence(a[1..], b[1..])) || IsSubsequence(a, b[1..])
  }

  /** The number of elements carrying `id`. */
  function CountId(cs: seq<Category>, id: string): nat {
    if cs == [] then 0 else (if cs[0].id == id then 1 else 0) + CountId(cs[1..], id)
  }

  lemma ReplaceUnknownId(cs: seq<Category>, u: Category)
    requires !HasId(cs, u.id)
    ensures ReplaceById(cs, u) == cs
  {
  }

  /** Replacing keeps every position's id, so it keeps ids distinct. */
  lemma ReplaceKeepsIds(cs: seq<Category>, u: Category)
    ensures forall i :: 0 <= i < |cs| ==> ReplaceById(cs, u)[i].id == cs[i].id
    ensures DistinctIds(cs) ==> DistinctIds(ReplaceById(cs, u))
  {
  }

  /** With distinct ids, a known id is replaced at exactly one position. */
  lemma ReplaceExactlyOne(cs: seq<Category>, u: Category, k: nat)
    requires DistinctIds(cs)
    requires k < |cs| && cs[k].id == u.id
    ensures ReplaceById(cs, u) == cs[k := u]
  {
  }

  lemma {:induction false} RemoveUnknownId(cs: seq<Category>, id: string)
    requires !HasId(cs, id)
    ensures RemoveById(cs, id) == cs
  {
    if cs != [] {
      assert cs[0].id != id;
      assert !HasId(cs[1..], id) by {
        forall i | 0 <= i < |cs[1..]| ensures cs[1..][i].id != id {
          assert cs[1..][i] == cs[i + 1];
        }
      }
      RemoveUnknownId(cs[1..], id);
      assert cs == [cs[0]] + cs[1..];
    }
  }

  lemma RemoveLeavesNoId(cs: seq<Category>, id: string)
    ensures !HasId(RemoveById(cs, id), id)
  {
  }

  /** Removing twice is removing once. */
  lemma RemoveIdempotent(cs: seq<Category>, id: string)
    ensures RemoveById(RemoveById(cs, id), id) == RemoveById(cs, id)
  {
  }

  /** The elements that survive keep their relative order. */
  lemma {:induction false} RemoveIsSubsequence(cs: seq<Category>, id: string)
    ensures IsSubsequence(RemoveById(cs, id), cs)
    decreases |cs|
  {
    if cs != [] {
      RemoveIsSubsequence(cs[1..], id);
      if cs[0].id != id {
        var r := RemoveById(cs, id);
        assert r[0] == cs[0] && r[1..] == RemoveById(cs[1..], id);
      }
    }
  }

  /** Exactly the elements carrying `id` are dropped. */
  lemma {:induction false} RemoveLength(cs: seq<Category>, id: string)
    ensures |RemoveById(cs, id)| == |cs| - CountId(cs, id)
  {
    if cs != [] { RemoveLength(cs[1..], id); }
  }

  lemma {:induction false} CountDistinct(cs: seq<Category>, id: string)
    requires DistinctIds(cs)
    ensures CountId(cs, id) == if HasId(cs, id) then 1 else 0
  {
    if cs != [] {
      var t := cs[1..];
      assert DistinctIds(t) by {
        forall i, j | 0 <= i < j < |t| ensures t[i].id != t[j].id {
          assert t[i] == cs[i + 1] && t[j] == cs[j + 1];
        }
      }
      CountDistinct(t, id);
      assert HasId(t, id) ==> HasId(cs, id) by {
        if HasId(t, id) {
          var i :| 0 <= i < |t| && t[i].id == id;
          assert cs[i + 1].id == id;
        }
      }
      if cs[0].id == id {
        assert !HasId(t, id) by {
          forall i | 0 <= i < |t| ensures t[i].id != id {
            assert t[i] == cs[i + 1];
          }
        }
      } else {
        assert HasId(cs, id) ==> HasId(t, id) by {
          if HasId(cs, id) {
            var i :| 0 <= i < |cs| && cs[i].id == id;
            assert i > 0 && t[i - 1] == cs[i];
          }
        }
      }
    }
  }

  /** With distinct ids, deleting a known id shortens the list by one. */
  lemma RemoveExactlyOne(cs: seq<Category>, id: string)
    requires DistinctIds(cs) && HasId(cs, id)
    ensures |RemoveById(cs, id)| == |cs| - 1
  {
    RemoveLength(cs, id);
    CountDistinct(cs, id);
  }

  /** Removing by id keeps the remaining ids distinct. */
  lemma {:induction false} RemoveKeepsDistinct(cs: seq<Category>, id: string)
    requires DistinctIds(cs)
    ensures DistinctIds(RemoveById(cs, id))
  {
    if cs != [] {
      var t := cs[1..];
      assert DistinctIds(t) by {
        forall i, j | 0 <= i < j < |t| ensures t[i].id != t[j].id {
          assert t[i] == cs[i + 1] && t[j] == cs[j + 1];
        }
      }
      RemoveKeepsDistinct(t, id);
      if cs[0].id != id {
        var rt := RemoveById(t, id);
        var r := [cs[0]] + rt;
        forall i, j | 0 <= i < j < |r| ensures r[i].id != r[j].id {
          if i == 0 {
            assert r[j] == rt[j - 1] && rt[j - 1] in rt;
            var k :| 0 <= k < |t| && t[k] == rt[j - 1];
            assert cs[k + 1] == t[k];
          } else {
            assert r[i] == rt[i - 1] && r[j] == rt[j - 1];
          }
        }
      }
    }
  }

  /** Appending a record whose id is new keeps ids distinct. */
  lemma AppendKeepsDistinct(cs: seq<Category>, c: Category)
    requires DistinctIds(cs) && !HasId(cs, c.id)
    ensures DistinctIds(cs + [c])
  {
  }

  // ---------------------------------------------------------------------
  // The store, before and after each repository operation.
  // ---------------------------------------------------------------------

  /** What `getStoredCategories` returns for store contents `m`. */
  function StoredCategories(m: map<string, Stored>): (r: seq<Category>)
    requires WellTyped(m)
    ensures CategoriesKey !in m ==> r == DefaultCategories()
    ensures CategoriesKey in m ==> m[CategoriesKey] == CategoryArray(r)
  {
    if CategoriesKey in m then m[CategoriesKey].categories else DefaultCategories()
  }

  /** The store contents after `getStoredCategories` ran on `m`. */
  function AfterRead(m: map<string, Stored>): (r: map<string, Stored>)
    requires WellTyped(m)
    ensures WellTyped(r) && CategoriesKey in r
  {
    if CategoriesKey in m then m else m[CategoriesKey := CategoryArray(DefaultCategories())]
  }

  /** The store contents after writing the list `cs`. */
  function WithCategories(m: map<string, Stored>, cs: seq<Category>): (r: map<string, Stored>)
    requires WellTyped(m)
    ensures WellTyped(r) && StoredCategories(r) == cs
    ensures OnlyKeyChanged(m, r, CategoriesKey)
  {
    m[CategoriesKey := CategoryArray(cs)]
  }

  /** The store contents after `addCategory` appended `c`. */
  function AfterAdd(m: map<string, Stored>, c: Category): (r: map<string, Stored>)
    requires WellTyped(m)
    ensures WellTyped(r) && OnlyKeyChanged(m, r, CategoriesKey)
    ensures |StoredCategories(r)| == |StoredCategories(m)| + 1
    ensures StoredCategories(r)[..|StoredCategories(m)|] == StoredCategories(m)
    ensures StoredCategories(r)[|StoredCategories(m)|] == c
  {
    WithCategories(m, StoredCategories(m) + [c])
  }

  /** The store contents after `editCategory` replaced the records with `u`'s id. */
  function AfterEdit(m: map<string, Stored>, u: Category): (r: map<string, Stored>)
    requires WellTyped(m)
    ensures WellTyped(r) && OnlyKeyChanged(m, r, CategoriesKey)
    ensures |StoredCategories(r)| == |StoredCategories(m)|
    ensures forall i :: 0 <= i < |StoredCategories(m)| ==>
      StoredCategories(r)[i] == if StoredCategories(m)[i].id == u.id then u else StoredCategories(m)[i]
  {
    WithCategories(m, ReplaceById(StoredCategories(m), u))
  }

  /** The store contents after `deleteCategory` dropped the records with `id`. */
  function AfterDelete(m: map<string, Stored>, id: string): (r: map<string, Stored>)
    requires WellTyped(m)
    ensures WellTyped(r) && OnlyKeyChanged(m, r, CategoriesKey)
    ensures forall c :: c in StoredCategories(r) <==> c in StoredCategories(m) && c.id != id
  {
    WithCategories(m, RemoveById(StoredCategories(m), id))
  }

  /** A second read returns what the first returned and writes nothing. */
  lemma ReadIdempotent(m: map<string, Stored>)
    requires WellTyped(m)
    ensures StoredCategories(AfterRead(m)) == StoredCategories(m)
    ensures AfterRead(AfterRead(m)) == AfterRead(m)
  {
  }

  /** Writing back the list a read returned leaves the store as the read left it. */
  lemma WriteBackIsRead(m: map<string, Stored>)
    requires WellTyped(m)
    ensures WithCategories(m, StoredCategories(m)) == AfterRead(m)
  {
  }

  /** An edit of an id the list does not hold leaves the store as a plain
      read leaves it: unchanged, or just seeded. */
  lemma EditUnknownIdIsRead(m: map<string, Stored>, u: Category)
    requires WellTyped(m) && !HasId(StoredCategories(m), u.id)
    ensures AfterEdit(m, u) == AfterRead(m)
  {
    ReplaceUnknownId(StoredCategories(m), u);
    WriteBackIsRead(m);
  }

  /** A delete of an id the list does not hold leaves the store as a plain
      read leaves it: unchanged, or just seeded. */
  lemma DeleteUnknownIdIsRead(m: map<string, Stored>, id: string)
    requires WellTyped(m) && !HasId(StoredCategories(m), id)
    ensures AfterDelete(m, id) == AfterRead(m)
  {
    RemoveUnknownId(StoredCategories(m), id);
    WriteBackIsRead(m);
  }

  /** Deleting an id twice leaves the store as deleting it once. */
  lemma DeleteTwice(m: map<string, Stored>, id: string)
    requires WellTyped(m)
    ensures AfterDelete(AfterDelete(m, id), id) == AfterDelete(m, id)
  {
    RemoveIdempotent(StoredCategories(m), id);
  }

  /** Every operation keeps the stored ids distinct, given a fresh id for
      an added category. */
  lemma OperationsKeepDistinct(m: map<string, Stored>, c: Category, u: Category, id: string)
    requires WellTyped(m) && DistinctIds(StoredCategories(m))
    ensures DistinctIds(StoredCategories(AfterRead(m)))
    ensures !HasId(StoredCategories(m), c.id) ==> DistinctIds(StoredCategories(AfterAdd(m, c)))
    ensures DistinctIds(StoredCategories(AfterEdit(m, u)))
    ensures DistinctIds(StoredCategories(AfterDelete(m, id)))
  {
    var cs := StoredCategories(m);
    if !HasId(cs, c.id) { AppendKeepsDistinct(cs, c); }
    ReplaceKeepsIds(cs, u);
    RemoveKeepsDistinct(cs, id);
  }

  // ---------------------------------------------------------------------
  // The repository operations on the store.
  // ---------------------------------------------------------------------

  /** `getStoredCategories`: seeds the defaults when the key is absent. */
  method GetStoredCategories(store: LocalStorage) returns (cs: seq<Category>)
    requires WellTyped(store.items)
    modifies store
    ensures cs == StoredCategories(old(store.items))
    ensures store.items == AfterRead(old(store.items))
    ensures CategoriesKey !in old(store.items) ==>
      cs == DefaultCategories() &&
      store.items == old(store.items)[CategoriesKey := CategoryArray(DefaultCategories())]
    ensures CategoriesKey in old(store.items) ==>
      cs == old(store.items)[CategoriesKey].categories && store.items == old(store.items)
  {
    var stored := store.GetItem(CategoriesKey);
    if stored.None? {
      SetStoredCategories(store, DefaultCategories());
      cs := DefaultCategories();
      return;
    }
    cs := stored.value.categories;
  }

  /** `setStoredCategories`: writes the "categories" key and no other. */
  method SetStoredCategories(store: LocalStorage, cs: seq<Category>)
    requires WellTyped(store.items)
    modifies store
    ensures store.items == WithCategories(old(store.items), cs)
  {
    store.SetItem(CategoriesKey, CategoryArray(cs));
  }

  /** `addCategory`: appends a record with the supplied id (the value of
      `crypto.randomUUID()`) and returns it. */
  method AddCategory(store: LocalStorage, newCategory: NewCategory, newId: string) returns (c: Category)
    requires WellTyped(store.items)
    modifies store
    ensures c == Category(newId, newCategory.name, newCategory.color)
    ensures store.items == AfterAdd(old(store.items), c)
    ensures StoredCategories(store.items) == StoredCategories(old(store.items)) + [c]
  {
    c := Category(newId, newCategory.name, newCategory.color);
    var current := GetStoredCategories(store);
    var updated := current + [c];
    SetStoredCategories(store, updated);
  }

  /** `editCategory`: replaces every element with the input's id and
      returns the input. */
  method EditCategory(store: LocalStorage, updatedCategory: Category) returns (r: Category)
    requires WellTyped(store.items)
    modifies store
    ensures r == updatedCategory
    ensures store.items == AfterEdit(old(store.items), updatedCategory)
    ensures StoredCategories(store.items) == ReplaceById(StoredCategories(old(store.items)), updatedCategory)
  {
    var current := GetStoredCategories(store);
    var updated := ReplaceById(current, updatedCategory);
    SetStoredCategories(store, updated);
    r := updatedCategory;
  }

  /** `deleteCategory`: drops every element with the id and returns the id. */
  method DeleteCategory(store: LocalStorage, categoryId: string) returns (r: string)
    requires WellTyped(store.items)
    modifies store
    ensures r == categoryId
    ensures store.items == AfterDelete(old(store.items), categoryId)
    ensures StoredCategories(store.items) == RemoveById(StoredCategories(old(store.items)), categoryId)
  {
    var current := GetStoredCategories(store);
    var updated := RemoveById(current, categoryId);
    SetStoredCategories(store, updated);
    r := categoryId;
  }
}
