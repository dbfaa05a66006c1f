/** The entities and transfer shapes the Place service works with, as values.
    References between entities that the ORM keeps as object pointers are
    modelled by the id of the referenced row: a Location or an OpeningHours
    entry points at its owning Place through `place`, which is None until
    the service attaches it. */
module PlaceEntities {

  datatype Option<+T> = None | Some(value: T)

  /** The status of a Place. Only equality between statuses matters to the
      service: it has no rule about which transitions are legal. */
  datatype PlaceStatus = Proposed | Approved | Declined

  /** A row of the category table; names are meant to be unique. */
  datatype Category = Category(id: nat, name: string)

  /** A Location row; `place` is the back-reference to its owning Place. */
  datatype Location = Location(lat: real, lng: real, place: Option<nat>)

  /** An OpeningHours row (times in minutes from midnight); `place` is the
      back-reference to its owning Place. */
  datatype OpeningHours = OpeningHours(weekDay: nat, openTime: nat, closeTime: nat, place: Option<nat>)

  /** A Place row. `id` is None until the repository has stored it;
      `modifiedDate` is a timestamp. */
  datatype Place = Place(
    id: Option<nat>,
    name: string,
    status: PlaceStatus,
    modifiedDate: int,
    category: Option<Category>,
    location: Location,
    openingHoursList: seq<OpeningHours>)

  datatype CategoryDto = CategoryDto(name: string)

  /** The request to register a new Place together with its dependents. */
  datatype PlaceAddDto = PlaceAddDto(
    name: string,
    status: PlaceStatus,
    category: CategoryDto,
    location: Location,
    openingHoursList: seq<OpeningHours>)

  /** The service's typed failures: NotFoundException carries the id that was
      looked up, PlaceStatusException the status the place already has. */
  datatype Error = NotFound(id: nat) | PlaceStatusNotDifferent(status: PlaceStatus)

  datatype Result<+T> = Success(value: T) | Failure(error: Error)
}
