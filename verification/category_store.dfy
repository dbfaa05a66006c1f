/** The category table as the Place service sees it through the category
    service: a lookup by exact name, and an insert that appends a row whose
    id is its position. `LookupOrCreate` is the lookup-or-create step the
    Place service performs before it registers a place. */
module CategoryStore {
  import opened PlaceEntities

  /** No two rows of the table share a name. */
  predicate UniqueNames(categories: seq<Category>) {
    forall i, j :: 0 <= i < j < |categories| ==> categories[i].name != categories[j].name
  }

  /** Every row's id is its position in the table. */
  predicate IdsArePositions(categories: seq<Category>) {
    forall i :: 0 <= i < |categories| ==> categories[i].id == i
  }

  /** The category with exactly this name, or None when there is none. */
  function FindByName(categories: seq<Category>, name: string): (r: Option<Category>)
    ensures r.None? <==> forall i :: 0 <= i < |categories| ==> categories[i].name != name
    ensures r.Some? ==> r.value in categories && r.value.name == name
  {
    if categories == [] then None
    else if categories[0].name == name then Some(categories[0])
    else FindByName(categories[1..], name)
  }

  /** The number of rows whose name is `name`. */
  function CountNamed(categories: seq<Category>, name: string): nat {
    if categories == [] then 0
    else (if categories[0].name == name then 1 else 0) + CountNamed(categories[1..], name)
  }

  datatype CategoryLookup = CategoryLookup(categories: seq<Category>, category: Category)

  /** The table and the category after looking `name` up and creating it when
      it is absent: an existing category is returned with the table
      untouched, otherwise exactly one row named `name` is appended. */
  function LookupOrCreate(categories: seq<Category>, name: string): (r: CategoryLookup)
    ensures r.category.name == name && r.category in r.categories
    ensures FindByName(categories, name).Some? ==> r.categories == categories
    ensures FindByName(categories, name).None? ==>
      r.categories == categories + [r.category] && r.category.id == |categories|
  {
    match FindByName(categories, name)
    case Some(c) => CategoryLookup(categories, c)
    case None =>
      var c := Category(|categories|, name);
      CategoryLookup(categories + [c], c)
  }

  lemma {:induction false} CountNamedAppend(categories: seq<Category>, c: Category, name: string)
    ensures CountNamed(categories + [c], name) == CountNamed(categories, name) + (if c.name == name then 1 else 0)
    decreases |categories|
  {
    if categories != [] {
      assert (categories + [c])[1..] == categories[1..] + [c];
      CountNamedAppend(categories[1..], c, name);
    }
  }

  /** In a table without duplicate names a name occurs once when the lookup
      finds it and not at all otherwise. */
  lemma {:induction false} CountNamedUnique(categories: seq<Category>, name: string)
    requires UniqueNames(categories)
    ensures CountNamed(categories, name) == if FindByName(categories, name).Some? then 1 else 0
    decreases |categories|
  {
    if categories != [] {
      var rest := categories[1..];
      assert UniqueNames(rest) by {
        forall i, j | 0 <= i < j < |rest| ensures rest[i].name != rest[j].name {
          assert rest[i] == categories[i + 1] && rest[j] == categories[j + 1];
        }
      }
      CountNamedUnique(rest, name);
      if categories[0].name == name {
        forall i | 0 <= i < |rest| ensures rest[i].name != name {
          assert rest[i] == categories[i + 1];
        }
      }
    }
  }

  /** Lookup-or-create never introduces a second row with the same name, and
      afterwards exactly one row carries the requested name. */
  lemma LookupOrCreateKeepsNamesUnique(categories: seq<Category>, name: string)
    requires UniqueNames(categories)
    ensures UniqueNames(LookupOrCreate(categories, name).categories)
    ensures CountNamed(LookupOrCreate(categories, name).categories, name) == 1
  {
    var r := LookupOrCreate(categories, name);
    if FindByName(categories, name).None? {
      CountNamedUnique(categories, name);
      CountNamedAppend(categories, r.category, name);
    } else {
      CountNamedUnique(categories, name);
    }
  }

  /** Lookup-or-create keeps the table's ids equal to the row positions. */
  lemma LookupOrCreateKeepsIds(categories: seq<Category>, name: string)
    requires IdsArePositions(categories)
    ensures IdsArePositions(LookupOrCreate(categories, name).categories)
  {
  }

  /** Looking the same name up twice gives the same category and the same
      table as looking it up once. */
  lemma LookupOrCreateIdempotent(categories: seq<Category>, name: string)
    ensures LookupOrCreate(LookupOrCreate(categories, name).categories, name) == LookupOrCreate(categories, name)
  {
  }
}
