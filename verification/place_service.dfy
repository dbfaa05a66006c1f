/** The Place aggregate service: registering a place together with its
    category, location and opening hours; the status-change guard; deletion;
    and saving a place as it is. The repositories and collaborating services
    it calls are the fields of `PlaceService`, each repository call an atomic
    update of one of them. */
module PlaceServiceImpl {
  import opened PlaceEntities
  import opened CategoryStore
  import opened PlaceQueries

  /** `p` is `q` with at most its status and modification date changed. */
  predicate SameExceptStatus(p: Place, q: Place) {
    p.(status := q.status, modifiedDate := q.modifiedDate) == q
  }

  /** The outcome of changing the status of place `placeId` to `placeStatus`
      at time `now`: NotFound when there is no such place, a status error
      naming the current status when the place already has the requested
      one, and otherwise the place with the new status, stamped with `now`,
      all else kept. Any status different from the current one is accepted. */
  function StatusUpdate(places: map<nat, Place>, placeId: nat, placeStatus: PlaceStatus, now: int): (r: Result<Place>)
    ensures r.Failure? && r.error == NotFound(placeId) <==> placeId !in places
    ensures r.Failure? && r.error.PlaceStatusNotDifferent? <==>
      placeId in places && places[placeId].status == placeStatus
    ensures r.Failure? && r.error.PlaceStatusNotDifferent? ==> r.error.status == placeStatus
    ensures r.Success? <==> placeId in places && places[placeId].status != placeStatus
    ensures r.Success? ==>
      r.value.status == placeStatus && r.value.modifiedDate == now && SameExceptStatus(r.value, places[placeId])
  {
    match FindById(places, placeId)
    case Failure(e) => Failure(e)
    case Success(updatable) =>
      if updatable.status == placeStatus then Failure(PlaceStatusNotDifferent(updatable.status))
      else Success(updatable.(status := placeStatus, modifiedDate := now))
  }

  /** Once a place has been moved to a status, asking for that same status
      again is refused, whatever the time. */
  lemma UpdateStatusRejectsRepeat(places: map<nat, Place>, placeId: nat, placeStatus: PlaceStatus, t1: int, t2: int)
    requires StatusUpdate(places, placeId, placeStatus, t1).Success?
    ensures StatusUpdate(places[placeId := StatusUpdate(places, placeId, placeStatus, t1).value], placeId, placeStatus, t2)
         == Failure(PlaceStatusNotDifferent(placeStatus))
  {
  }

  /** Moving a place to another status and back restores the table except for
      the modification date of that place, which holds the second time. */
  lemma UpdateStatusRevert(places: map<nat, Place>, placeId: nat, placeStatus: PlaceStatus, t1: int, t2: int)
    requires StatusUpdate(places, placeId, placeStatus, t1).Success?
    ensures var moved := places[placeId := StatusUpdate(places, placeId, placeStatus, t1).value];
            var back := StatusUpdate(moved, placeId, places[placeId].status, t2);
            back.Success? && moved[placeId := back.value] == places[placeId := places[placeId].(modifiedDate := t2)]
  {
  }

  /** The entries of `hours`, each pointing back at place `placeId` and
      otherwise unchanged. */
  function Attached(hours: seq<OpeningHours>, placeId: nat): (r: seq<OpeningHours>)
    ensures |r| == |hours|
    ensures forall i :: 0 <= i < |r| ==> r[i].place == Some(placeId) && r[i].(place := hours[i].place) == hours[i]
  {
    seq(|hours|, i requires 0 <= i < |hours| => hours[i].(place := Some(placeId)))
  }

  /** Attaching entry by entry is attaching the whole list. */
  lemma AttachedExtend(hours: seq<OpeningHours>, i: nat, placeId: nat)
    requires i < |hours|
    ensures Attached(hours[..i + 1], placeId) == Attached(hours[..i], placeId) + [hours[i].(place := Some(placeId))]
  {
  }

  /** An opening-hours list whose first `i` entries have been attached. */
  function PartlyAttached(hours: seq<OpeningHours>, i: nat, placeId: nat): (r: seq<OpeningHours>)
    requires i <= |hours|
    ensures |r| == |hours|
  {
    Attached(hours[..i], placeId) + hours[i..]
  }

  /** Attaching entry `i` where it stands extends the attached prefix by one. */
  lemma AttachStep(hours: seq<OpeningHours>, i: nat, placeId: nat)
    requires i < |hours|
    ensures PartlyAttached(hours, i, placeId)[i := hours[i].(place := Some(placeId))]
         == PartlyAttached(hours, i + 1, placeId)
  {
  }

  lemma AttachBounds(hours: seq<OpeningHours>, placeId: nat)
    ensures PartlyAttached(hours, 0, placeId) == hours
    ensures PartlyAttached(hours, |hours|, placeId) == Attached(hours, placeId)
  {
  }

  class PlaceService {
    /** The place table behind the place repository, by id. */
    var places: map<nat, Place>
    /** The id the place repository hands out next. */
    var nextPlaceId: nat
    /** The category table behind the category service. */
    var categories: seq<Category>
    /** The locations saved through the location service, in order. */
    var locations: seq<Location>
    /** The opening-hours entries saved through the opening-hours service, in order. */
    var openingHours: seq<OpeningHours>

    ghost predicate Valid()
      reads this
    {
      (forall k :: k in places ==> k < nextPlaceId && places[k].id == Some(k)) &&
      UniqueNames(categories) && IdsArePositions(categories)
    }

    constructor ()
      ensures Valid()
      ensures places == map[] && nextPlaceId == 0 && categories == [] && locations == [] && openingHours == []
    {
      places, nextPlaceId := map[], 0;
      categories, locations, openingHours := [], [], [];
    }

    /** The place repository's save: a place without an id is stored under a
        fresh one, a place with an id replaces the row with that id. */
    method PlaceRepoSave(p: Place) returns (saved: Place)
      requires Valid()
      modifies this`places, this`nextPlaceId
      ensures Valid()
      ensures saved.id.Some? && saved == p.(id := saved.id)
      ensures p.id.None? ==> saved.id == Some(old(nextPlaceId)) && old(nextPlaceId) !in old(places)
      ensures p.id.Some? ==> saved.id == p.id
      ensures places == old(places)[saved.id.value := saved]
      ensures p.id.Some? && p.id.value in old(places) ==> nextPlaceId == old(nextPlaceId)
    {
      var id := if p.id.Some? then p.id.value else nextPlaceId;
      saved := p.(id := Some(id));
      places := places[id := saved];
      if id >= nextPlaceId {
        nextPlaceId := id + 1;
      }
    }

    /** Saves a place as it is. */
    method SaveEntity(place: Place) returns (saved: Place)
      requires Valid()
      modifies this`places, this`nextPlaceId
      ensures Valid()
      ensures saved.id.Some? && saved == place.(id := saved.id)
      ensures place.id.None? ==> saved.id == Some(old(nextPlaceId)) && old(nextPlaceId) !in old(places)
      ensures place.id.Some? ==> saved.id == place.id
      ensures places == old(places)[saved.id.value := saved]
    {
      saved := PlaceRepoSave(place);
    }

    /** Changes the status of a place and stamps it with `now`; refuses an
        unknown id and a status the place already has, changing nothing. */
    method UpdateStatus(placeId: nat, placeStatus: PlaceStatus, now: int) returns (r: Result<Place>)
      requires Valid()
      modifies this`places, this`nextPlaceId
      ensures Valid()
      ensures r == StatusUpdate(old(places), placeId, placeStatus, now)
      ensures places == if r.Success? then old(places)[placeId := r.value] else old(places)
      ensures nextPlaceId == old(nextPlaceId)
    {
      var found := FindById(places, placeId);
      if found.Failure? {
        return Failure(found.error);
      }
      var updatable := found.value;
      if updatable.status == placeStatus {
        return Failure(PlaceStatusNotDifferent(updatable.status));
      }
      updatable := updatable.(status := placeStatus, modifiedDate := now);
      var saved := PlaceRepoSave(updatable);
      return Success(saved);
    }

    /** Deletes the place with this id and answers true; refuses an unknown
        id, deleting nothing. */
    method DeleteById(id: nat) returns (r: Result<bool>)
      requires Valid()
      modifies this`places
      ensures Valid()
      ensures id in old(places) ==> r == Success(true) && places == old(places) - {id}
      ensures id !in old(places) ==> r == Failure(NotFound(id)) && places == old(places)
    {
      var found := FindById(places, id);
      if found.Failure? {
        return Failure(found.error);
      }
      places := places - {found.value.id.value};
      return Success(true);
    }

    /** The category named `name`, created when there is none yet. */
    method CreateCategoryByName(name: string) returns (category: Category)
      requires Valid()
      modifies this`categories
      ensures Valid()
      ensures CategoryLookup(categories, category) == LookupOrCreate(old(categories), name)
      ensures CountNamed(categories, name) == 1
    {
      LookupOrCreateKeepsNamesUnique(categories, name);
      LookupOrCreateKeepsIds(categories, name);
      var found := FindByName(categories, name);
      if found.Some? {
        category := found.value;
      } else {
        category := Category(|categories|, name);
        categories := categories + [category];
      }
    }

    /** Points the location of a stored place back at it and saves the
        location. */
    method SetPlaceToLocation(place: Place) returns (attached: Place)
      requires Valid()
      requires place.id.Some? && place.id.value in places && places[place.id.value] == place
      modifies this`places, this`locations
      ensures Valid()
      ensures attached == place.(location := place.location.(place := place.id))
      ensures locations == old(locations) + [attached.location]
      ensures places == old(places)[place.id.value := attached]
    {
      var location := place.location.(place := place.id);
      attached := place.(location := location);
      places := places[place.id.value := attached];
      locations := locations + [location];
    }

    /** Points every opening-hours entry of a stored place back at it and
        saves each entry once, in list order. */
    method SetPlaceToOpeningHours(place: Place) returns (attached: Place)
      requires Valid()
      requires place.id.Some? && place.id.value in places && places[place.id.value] == place
      modifies this`places, this`openingHours
      ensures Valid()
      ensures attached == place.(openingHoursList := Attached(place.openingHoursList, place.id.value))
      ensures openingHours == old(openingHours) + attached.openingHoursList
      ensures places == old(places)[place.id.value := attached]
    {
      var id := place.id.value;
      var hours := place.openingHoursList;
      AttachBounds(hours, id);
      attached := place;
      var i := 0;
      while i < |hours|
        invariant 0 <= i <= |hours|
        invariant attached == place.(openingHoursList := PartlyAttached(hours, i, id))
        invariant openingHours == old(openingHours) + Attached(hours[..i], id)
        invariant places == old(places)[id := attached]
      {
        var h := hours[i].(place := Some(id));
        AttachedExtend(hours, i, id);
        AttachStep(hours, i, id);
        attached := attached.(openingHoursList := attached.openingHoursList[i := h]);
        places := places[id := attached];
        openingHours := openingHours + [h];
        i := i + 1;
      }
      assert hours[..i] == hours;
    }

    /** Registers a new place: resolves its category by name (creating it
        when absent), stores the mapped place, attaches the category, then
        attaches and saves its location and each opening-hours entry.
        `convertToEntity` is the request-to-entity mapper. */
    method Save(dto: PlaceAddDto, convertToEntity: PlaceAddDto -> Place) returns (place: Place)
      requires Valid()
      modifies this
      ensures Valid()
      ensures var entity := convertToEntity(dto);
        && place.id.Some?
        && (entity.id.None? ==> place.id == Some(old(nextPlaceId)) && old(nextPlaceId) !in old(places))
        && (entity.id.Some? ==> place.id == entity.id)
        && place.name == entity.name && place.status == entity.status
        && place.modifiedDate == entity.modifiedDate
        && place.location == entity.location.(place := place.id)
        && place.openingHoursList == Attached(entity.openingHoursList, place.id.value)
      ensures places == old(places)[place.id.value := place]
      ensures var lookup := LookupOrCreate(old(categories), dto.category.name);
        place.category == Some(lookup.category) && categories == lookup.categories
      ensures place.category.Some? && place.category.value.name == dto.category.name
      ensures locations == old(locations) + [place.location]
      ensures openingHours == old(openingHours) + place.openingHoursList
    {
      var category := CreateCategoryByName(dto.category.name);
      var stored := PlaceRepoSave(convertToEntity(dto));
      place := stored.(category := Some(category));
      places := places[place.id.value := place];
      place := SetPlaceToLocation(place);
      place := SetPlaceToOpeningHours(place);
    }
  }
}
