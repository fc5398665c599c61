/** The category list of Category.js: how `@logs_category` is read, the
    create and delete rules, and the pick-list that CreateTask.js builds. */
module Categories {
  import opened Seqs
  import opened Text
  import opened Sorting
  import opened Tasks

  /** One element of the parsed `@logs_category` array. */
  datatype Entry = StringEntry(s: string) | NonText

  /** What `@logs_category` holds: nothing, something that `JSON.parse` rejects
      or that has no `filter` (not an array), or an array. */
  datatype CategoryRecord = Missing | Malformed | Parsed(entries: seq<Entry>)

  /** The string elements of the array, in order. */
  function TextEntries(entries: seq<Entry>): (r: seq<string>)
    ensures |r| <= |entries|
  {
    if entries == [] then []
    else (match entries[0] case StringEntry(s) => [s] case NonText => []) + TextEntries(entries[1..])
  }

  /** `getCategory`: [] for a missing or unreadable record, otherwise the string entries. */
  function LoadCategories(raw: CategoryRecord): seq<string>
  {
    match raw
    case Missing => []
    case Malformed => []
    case Parsed(entries) => TextEntries(entries)
  }

  /** What `storeData` writes: `JSON.stringify` of an array of strings. */
  function Encode(names: seq<string>): (r: seq<Entry>)
    ensures |r| == |names|
    ensures forall i :: 0 <= i < |r| ==> r[i] == StringEntry(names[i])
  {
    if names == [] then [] else [StringEntry(names[0])] + Encode(names[1..])
  }

  /** Reading keeps exactly the strings of the array, in their order, each as
      often as the array holds it, and drops the rest. */
  lemma {:induction false} TextEntriesSpec(entries: seq<Entry>)
    ensures Subsequence(Encode(TextEntries(entries)), entries)
    ensures forall s :: StringEntry(s) in entries <==> s in TextEntries(entries)
    ensures forall s :: multiset(TextEntries(entries))[s] == multiset(entries)[StringEntry(s)]
  {
    if entries != [] {
      TextEntriesSpec(entries[1..]);
      var r := TextEntries(entries);
      var rest := TextEntries(entries[1..]);
      assert entries == [entries[0]] + entries[1..];
      assert multiset(entries) == multiset{entries[0]} + multiset(entries[1..]);
      if entries[0].StringEntry? {
        assert r == [entries[0].s] + rest;
        assert multiset(r) == multiset{entries[0].s} + multiset(rest);
        assert Encode(r)[0] == entries[0];
        assert Encode(r)[1..] == Encode(rest);
      } else {
        assert r == rest;
      }
    }
  }

  /** Loading after storing gives back exactly the stored names. */
  lemma {:induction false} LoadAfterStore(names: seq<string>)
    ensures LoadCategories(Parsed(Encode(names))) == names
  {
    if names != [] {
      LoadAfterStore(names[1..]);
      assert Encode(names)[1..] == Encode(names[1..]);
      assert [names[0]] + names[1..] == names;
    }
  }

  /** `getCategory`'s error behaviour: [] when the key is absent or unreadable. */
  lemma LoadCategoriesSpec(raw: CategoryRecord)
    ensures raw.Missing? || raw.Malformed? ==> LoadCategories(raw) == []
    ensures raw.Parsed? ==> Subsequence(Encode(LoadCategories(raw)), raw.entries)
    ensures raw.Parsed? ==> forall s :: s in LoadCategories(raw) <==> StringEntry(s) in raw.entries
    ensures raw.Parsed? ==> forall s :: multiset(LoadCategories(raw))[s] == multiset(raw.entries)[StringEntry(s)]
  {
    if raw.Parsed? {
      TextEntriesSpec(raw.entries);
    }
  }

  /** The stored list (`@logs_category`) and the Category component's
      `listOfCategory`, the list the delete dialog offers and checks. */
  datatype CategoryState = CategoryState(stored: seq<string>, view: seq<string>)

  datatype CategoryOutcome = Created | Deleted | EmptyName | DuplicateName | ReservedName | NotFound

  /** The component mounting: the stored list, and the view without the placeholder. */
  function OpenCategories(raw: CategoryRecord): CategoryState
  {
    var stored := LoadCategories(raw);
    CategoryState(stored, RemoveAll(stored, NoCategory))
  }

  /** The delete dialog never offers the placeholder right after the component mounts. */
  lemma OpenedViewHasNoPlaceholder(raw: CategoryRecord)
    ensures NoCategory !in OpenCategories(raw).view
    ensures Subsequence(OpenCategories(raw).view, LoadCategories(raw))
  {
    RemoveAllSpec(LoadCategories(raw), NoCategory);
  }

  /** `createCategoryItem`: trim, reject a blank name, reject a name already
      stored, otherwise append it to the stored list, which also becomes the view. */
  function AddCategory(c: CategoryState, input: string): (CategoryOutcome, CategoryState)
  {
    var name := Trim(input);
    if |name| == 0 then (EmptyName, c)
    else if name in c.stored then (DuplicateName, c)
    else
      var names := c.stored + [name];
      (Created, CategoryState(names, names))
  }

  /** Creation succeeds exactly for a non-blank name whose trimmed form is new;
      a rejected name changes nothing; a created one is appended after the
      existing names, which keep their positions. */
  lemma AddCategorySpec(c: CategoryState, input: string)
    ensures var (outcome, c') := AddCategory(c, input);
      && (outcome == EmptyName <==> IsBlank(input))
      && (outcome == DuplicateName <==> !IsBlank(input) && Trim(input) in c.stored)
      && (outcome == Created <==> !IsBlank(input) && Trim(input) !in c.stored)
      && (outcome != Created ==> c' == c)
      && (outcome == Created ==>
            && |c'.stored| == |c.stored| + 1
            && c'.stored[..|c.stored|] == c.stored
            && c'.stored[|c.stored|] == Trim(input)
            && c'.view == c'.stored)
  {
    TrimEmptyIffBlank(input);
    var (outcome, c') := AddCategory(c, input);
    if outcome == Created {
      assert c'.stored[..|c.stored|] == c.stored;
    }
  }

  /** Creating never introduces a duplicate into a duplicate-free list. */
  lemma AddCategoryKeepsUnique(c: CategoryState, input: string)
    requires NoDuplicates(c.stored)
    ensures NoDuplicates(AddCategory(c, input).1.stored)
  {
    var name := Trim(input);
    if |name| > 0 && name !in c.stored {
      AppendKeepsUnique(c.stored, name);
    }
  }

  /** Create does not reserve the placeholder: typing "Nenhuma Selecionada"
      stores it as an ordinary category, and it then appears in the view. */
  lemma AddCategoryStoresPlaceholder(c: CategoryState)
    requires NoCategory !in c.stored
    ensures AddCategory(c, "Nenhuma Selecionada") == (Created, CategoryState(c.stored + [NoCategory], c.stored + [NoCategory]))
    ensures NoCategory in AddCategory(c, "Nenhuma Selecionada").1.view
  {
    assert ContentStart(NoCategory) == 0;
    assert ContentEnd(NoCategory) == |NoCategory|;
    assert NoCategory[0..] == NoCategory;
    assert Trim(NoCategory) == NoCategory;
  }

  /** `deleteCategoryItem`: refuse the placeholder, refuse an empty name or one
      missing from the view, otherwise store the view without every copy of the name. */
  function RemoveCategory(c: CategoryState, name: string): (CategoryOutcome, CategoryState)
  {
    if name == NoCategory then (ReservedName, c)
    else if name == "" || name !in c.view then (NotFound, c)
    else
      var names := RemoveAll(c.view, name);
      (Deleted, CategoryState(names, names))
  }

  /** Deletion fails, changing nothing, for the placeholder, the empty name or a
      name missing from the view; otherwise every copy goes and the other names
      of the view keep their order and number. */
  lemma RemoveCategorySpec(c: CategoryState, name: string)
    ensures var (outcome, c') := RemoveCategory(c, name);
      && (outcome == ReservedName <==> name == NoCategory)
      && (outcome == NotFound <==> name != NoCategory && (name == "" || name !in c.view))
      && (outcome != Deleted ==> c' == c)
      && (outcome == Deleted ==>
            && c'.stored == c'.view
            && name !in c'.view
            && |c'.view| < |c.view|
            && Subsequence(c'.view, c.view)
            && forall n :: n != name ==> multiset(c'.view)[n] == multiset(c.view)[n])
  {
    RemoveAllSpec(c.view, name);
    if name in c.view {
      RemoveAllShrinks(c.view, name);
    }
  }

  /** Deleting keeps a duplicate-free view duplicate-free. */
  lemma RemoveCategoryKeepsUnique(c: CategoryState, name: string)
    requires NoDuplicates(c.view)
    ensures NoDuplicates(RemoveCategory(c, name).1.view)
  {
    RemoveAllKeepsUnique(c.view, name);
  }

  /** Deleting writes the view back to storage, and right after mounting the view
      lacks the placeholder: a stored "Nenhuma Selecionada" is dropped from
      storage by the first successful delete. */
  lemma RemoveAfterOpenDropsPlaceholder(raw: CategoryRecord, name: string)
    requires RemoveCategory(OpenCategories(raw), name).0 == Deleted
    ensures NoCategory !in RemoveCategory(OpenCategories(raw), name).1.stored
    ensures RemoveCategory(OpenCategories(raw), name).1.stored == RemoveAll(RemoveAll(LoadCategories(raw), NoCategory), name)
  {
    var view := OpenCategories(raw).view;
    OpenedViewHasNoPlaceholder(raw);
    RemoveAllSpec(view, name);
    SubsequenceMembers(RemoveAll(view, name), view);
  }

  /** Deleting a name just created restores the stored list as it was. */
  lemma RemoveUndoesAdd(c: CategoryState, input: string)
    requires AddCategory(c, input).0 == Created
    requires Trim(input) != NoCategory
    ensures RemoveCategory(AddCategory(c, input).1, Trim(input)) == (Deleted, CategoryState(c.stored, c.stored))
  {
    RemoveAllAppended(c.stored, Trim(input));
  }

  /** CreateTask.js's category pick-list: nothing while the key is absent,
      otherwise the placeholder followed by the stored names sorted by
      `localeCompare`, here any ordering given as an integer rank. */
  function PickList(stored: Option<seq<string>>, rank: string -> int): seq<string>
  {
    match stored
    case None => []
    case Some(names) => [NoCategory] + SortBy(names, rank)
  }

  /** The placeholder comes first, then every stored name exactly as often as
      stored, ordered by rank. */
  lemma PickListSpec(stored: Option<seq<string>>, rank: string -> int)
    ensures stored.None? ==> PickList(stored, rank) == []
    ensures stored.Some? ==> var r := PickList(stored, rank);
      && |r| == |stored.value| + 1
      && r[0] == NoCategory
      && multiset(r[1..]) == multiset(stored.value)
      && SortedBy(r[1..], rank)
  {
    if stored.Some? {
      var r := PickList(stored, rank);
      SortByPermutes(stored.value, rank);
      SortBySorts(stored.value, rank);
      assert r[1..] == SortBy(stored.value, rank);
    }
  }
}
