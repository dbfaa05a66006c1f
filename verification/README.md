# GreenCity Place service, modelled in Dafny

This project models the Place aggregate service of the GreenCity backend
(`PlaceServiceImpl`). The service registers a Place together with its
dependents: a Category shared by name, an owned Location, and a list of owned
OpeningHours entries. It also changes a Place's status, under a guard that
refuses a change to the status the Place already has. It looks Places up and
deletes them by id, with NotFound semantics. It lists the Places of one status
for the admin view, latest modification first.

The repositories and collaborating services become fields of the class
`PlaceServiceImpl.PlaceService`:

- `places`: the place table, by id, with `nextPlaceId` as the id the repository hands out next.
- `categories`: the category table. It is a sequence of rows, so the invariant
  that no two rows share a name is a property the service has to keep.
- `locations` and `openingHours`: the rows saved through the location service
  and the opening-hours service, in the order they were saved.

Each repository call is one atomic update of one of these fields.
Back-references from a Location or an OpeningHours entry to its Place are the
Place's id. The read queries are pure functions over the place table
(`PlaceQueries`). The status guard and the back-reference attachment have
specification functions (`StatusUpdate`, `Attached`). The class methods are
proved against them.

Files:

- `place_entities.dfy`: the entities, the request shape, the error kinds and `Result`.
- `category_store.dfy`: lookup of a category by name and the lookup-or-create step.
- `place_queries.dfy`: `findById`, `findAll` and the status listing ordered by
  modification date.
- `place_service.dfy`: the status-change specification, the attachment of
  back-references, and the class with the mutating operations.

The service stamps `modifiedDate` only on a status change; registering a
Place keeps whatever date the request mapper produced. A successful status
change sets `modifiedDate` to exactly the clock value `now`.

## Model

| member | source | states |
|---|---|---|
| `PlaceQueries.FindById` | src/main/java/greencity/service/impl/PlaceServiceImpl.java:185-192 | succeeds exactly when the id is stored and then returns the stored place; otherwise fails with NotFound carrying that id |
| `PlaceQueries.FindAll` | src/main/java/greencity/service/impl/PlaceServiceImpl.java:146-150 | returns as many entries as there are stored places; each entry is a stored place, and every stored place appears |
| `PlaceQueries.OrderByModifiedDateDesc` | src/main/java/greencity/service/impl/PlaceServiceImpl.java:57 | returns the given ids, each exactly once, each one before every later one in the order of latest modification date first |
| `PlaceQueries.FindAllByStatusOrderByModifiedDateDesc` | src/main/java/greencity/service/impl/PlaceServiceImpl.java:56-57 | one entry per stored place with the status, and no others; every entry has the status; modification dates never increase along the list |
| `PlaceQueries.GetPlacesByStatus` | src/main/java/greencity/service/impl/PlaceServiceImpl.java:56-61 | one summary per place with the status; the i-th summary is the mapper's image of the i-th place of the ordered listing |
| `PlaceQueries.FindAllByStatusIsFilteredFindAll` | src/main/java/greencity/service/impl/PlaceServiceImpl.java:56-61 | the status listing equals the full listing with the places of every other status dropped |
| `CategoryStore.FindByName` | src/main/java/greencity/service/impl/PlaceServiceImpl.java:122-123 | returns None exactly when no row has the name; otherwise returns a row of the table with that name |
| `CategoryStore.LookupOrCreate` | src/main/java/greencity/service/impl/PlaceServiceImpl.java:119-129 | the category has the name and is in the table; an existing category leaves the table untouched; otherwise exactly one row with that name is appended, with a fresh id |
| `CategoryStore.LookupOrCreateKeepsNamesUnique` | src/main/java/greencity/service/impl/PlaceServiceImpl.java:119-129 | in a table without duplicate names, lookup-or-create keeps names unique and leaves exactly one row with the requested name |
| `CategoryStore.LookupOrCreateIdempotent` | src/main/java/greencity/service/impl/PlaceServiceImpl.java:119-129 | a second lookup-or-create of the same name returns the same category and leaves the table as the first one left it |
| `PlaceServiceImpl.PlaceService.CreateCategoryByName` | src/main/java/greencity/service/impl/PlaceServiceImpl.java:119-129 | the returned category and the new table are those of lookup-or-create; afterwards exactly one row carries the name; the store invariant is kept |
| `PlaceServiceImpl.StatusUpdate` | src/main/java/greencity/service/impl/PlaceServiceImpl.java:161-176 | NotFound exactly when the id is absent; a status error exactly when the place already has the status; success for every other status, with the new status, modification date `now` and every other field unchanged |
| `PlaceServiceImpl.UpdateStatusRejectsRepeat` | src/main/java/greencity/service/impl/PlaceServiceImpl.java:166-169 | after a successful change to a status, a second change to that status fails with the status error, whatever the time |
| `PlaceServiceImpl.UpdateStatusRevert` | src/main/java/greencity/service/impl/PlaceServiceImpl.java:170-175 | changing a place's status and then changing it back succeeds, and restores the table except for that place's modification date |
| `PlaceServiceImpl.PlaceService.UpdateStatus` | src/main/java/greencity/service/impl/PlaceServiceImpl.java:161-176 | returns the outcome `StatusUpdate` specifies; on success the stored place is replaced by the returned one; on failure no place changes; no other store changes |
| `PlaceServiceImpl.PlaceService.DeleteById` | src/main/java/greencity/service/impl/PlaceServiceImpl.java:137-144 | a stored id is removed, and only that id, and the answer is true; an absent id fails with NotFound and removes nothing |
| `PlaceServiceImpl.PlaceService.PlaceRepoSave` | src/main/java/greencity/service/impl/PlaceServiceImpl.java:175 | a place without an id is stored under a fresh id; a place with an id replaces that row; nothing else in the table changes |
| `PlaceServiceImpl.PlaceService.SaveEntity` | src/main/java/greencity/service/impl/PlaceServiceImpl.java:202-206 | the place is stored as given, under its own id or a fresh one; the returned place equals the stored row |
| `PlaceServiceImpl.Attached` | src/main/java/greencity/service/impl/PlaceServiceImpl.java:91-96 | same length as the list; every entry points at the place, and each entry keeps all its other fields |
| `PlaceServiceImpl.PlaceService.SetPlaceToLocation` | src/main/java/greencity/service/impl/PlaceServiceImpl.java:105-110 | the place's location now points at the place; that location is appended to the saved locations; the stored place is updated to match |
| `PlaceServiceImpl.PlaceService.SetPlaceToOpeningHours` | src/main/java/greencity/service/impl/PlaceServiceImpl.java:89-97 | every entry of the place's list points at the place; the entries are appended to the saved entries, each exactly once, in list order; the stored place is updated to match |
| `PlaceServiceImpl.PlaceService.Save` | src/main/java/greencity/service/impl/PlaceServiceImpl.java:72-81 | the returned place is stored, under a fresh id when the mapped entity had none; its category is the looked-up-or-created one, named as in the request; its location and every opening-hours entry point at it; the location and the entries are saved in order; the mapped fields are kept |

## Left out

- Logging calls throughout the service: they have no behaviour.
- The transaction around registering a place, the flush of `saveAndFlush`, and ORM cascades on delete. These are framework behaviour; each repository call is an atomic update.
- Collaborator calls (the mapper, the category, location and opening-hours saves) never fail in the model, so registration always completes. The source's rollback of a failed registration (PlaceServiceImpl.java:70-81) is not represented.
- An unset modification date. `Place.modifiedDate` is always an integer, while registration never sets that date, so a place whose mapper left it unset has no counterpart in the model, nor does its position in the status listing ordered by modification date.
- Concurrent calls. Two requests racing on the same new category name are not modelled; only sequential calls are.
- The clock and its time zone. The current time is the parameter `now`.
- The request-to-entity mapper and the object mapper that builds admin summaries. Both are foreign code, so they are function parameters (`convertToEntity`, `toDto`) about which nothing is assumed.
- `update(Place)`: a stub that returns null and does nothing.
- Null inputs. A request without a category, location or opening-hours list makes the source throw a NullPointerException; in the model these parts are always present.
- The full set of place statuses. Only three are modelled; the guard uses status equality only.
- Entity fields the service never reads. Location and OpeningHours keep a few representative fields besides the back-reference.
- 64-bit ids. Ids are unbounded naturals.
- Back-references are ids, not object references. Aliasing between the returned place and the managed entity is modelled by updating the stored row whenever the service mutates the place.
- `PlaceQueries.FindAll`: the repository promises no order. The model lists places latest modification first, and its contract says nothing about order.
- `PlaceQueries.FindAllByStatusOrderByModifiedDateDesc`: the database's order among places modified at the same instant is unspecified. The model orders such places by id, and its contract promises only that modification dates never increase.
- The habit-status repository tests, the eco-news comment repository and the habit service interface. They are Spring Data interfaces, integration tests and declarations with no implementation to model.
