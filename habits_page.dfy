/** The habit list page (src/app/habits/page.tsx): which habits the list
    shows for the archive switch and the category filter, and the lookup
    of a habit's category. */
module HabitsPage {
  import opened Wrappers
  import opened Seqs
  import opened HabitModel

  /** The filter value that selects every category. */
  const AllCategories: string := "all"

  /** The `filteredHabits` predicate: archived habits only when
      `showArchived`, and only the chosen category unless it is "all". */
  predicate Shown(showArchived: bool, filterCategory: string, h: Habit)
  {
    if !showArchived && h.isArchived then false
    else if filterCategory != AllCategories && h.categoryId != Some(filterCategory) then false
    else true
  }

  /** `filteredHabits`. */
  function FilteredHabits(habits: seq<Habit>, showArchived: bool, filterCategory: string): (r: seq<Habit>)
  {
    Filter(habits, (h: Habit) => Shown(showArchived, filterCategory, h))
  }

  /** The list keeps the habits in their order and drops exactly those
      that are archived while archived ones are hidden, or that belong to
      another category (or none) while a category is chosen; with archived
      habits shown and every category selected it is the whole list. */
  lemma FilteredHabitsMeaning(habits: seq<Habit>, showArchived: bool, filterCategory: string)
    ensures var r := FilteredHabits(habits, showArchived, filterCategory);
      && IsSubsequence(r, habits)
      && (forall h :: h in r <==>
            h in habits && (showArchived || !h.isArchived) &&
            (filterCategory == AllCategories || h.categoryId == Some(filterCategory)))
      && (showArchived && filterCategory == AllCategories ==> r == habits)
  {
    if showArchived && filterCategory == AllCategories {
      FilterAll(habits, (h: Habit) => Shown(showArchived, filterCategory, h));
    }
  }

  /** `getCategoryById`: nothing for a null or empty id, else the first
      category with that id, if any. */
  function GetCategoryById(categories: seq<Category>, id: Option<string>): (r: Option<Category>)
  {
    if id.None? || id.value == "" then None
    else FindFirst(categories, (c: Category) => c.id == id.value)
  }

  /** The lookup finds a category exactly when the id is given, not empty,
      and some category carries it; what it finds is the first such
      category. */
  lemma GetCategoryByIdMeaning(categories: seq<Category>, id: Option<string>, k: nat)
    ensures GetCategoryById(categories, id).Some? <==>
      id.Some? && id.value != "" && exists i :: 0 <= i < |categories| && categories[i].id == id.value
    ensures (id.Some? && id.value != "" && k < |categories| && categories[k].id == id.value &&
             (forall i :: 0 <= i < k ==> categories[i].id != id.value)) ==>
      GetCategoryById(categories, id) == Some(categories[k])
  {
    if id.Some? && id.value != "" {
      var p := (c: Category) => c.id == id.value;
      var r := FindFirst(categories, p);
      if r.Some? {
        var j :| 0 <= j < |categories| && categories[j] == r.value && p(categories[j]) && forall i :: 0 <= i < j ==> !p(categories[i]);
        if k < |categories| && categories[k].id == id.value && (forall i :: 0 <= i < k ==> categories[i].id != id.value) {
          assert j == k;
        }
      }
    }
  }
}
