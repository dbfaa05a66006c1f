/** The read side of the Place service over the place table, a map from id
    to row: lookup by id, the full listing, and the listing of the places with
    one status, newest modification first. */
module PlaceQueries {
  import opened PlaceEntities

  /** The place stored under `id`, or NotFound carrying that id. */
  function FindById(places: map<nat, Place>, id: nat): (r: Result<Place>)
    ensures r.Success? <==> id in places
    ensures r.Success? ==> r.value == places[id]
    ensures r.Failure? ==> r.error == NotFound(id)
  {
    if id in places then Success(places[id]) else Failure(NotFound(id))
  }

  /** Place `a` comes before place `b` in a listing ordered by modification
      date, latest first; places modified at the same instant come in id
      order. */
  predicate Precedes(places: map<nat, Place>, a: nat, b: nat) {
    a in places && b in places &&
    (places[a].modifiedDate > places[b].modifiedDate ||
     (places[a].modifiedDate == places[b].modifiedDate && a < b))
  }

  /** Every id of the sequence comes strictly before every later one, so the
      ids are distinct and their places run from the latest modification to
      the earliest. */
  predicate InListingOrder(places: map<nat, Place>, ids: seq<nat>) {
    forall i, j :: 0 <= i < j < |ids| ==> Precedes(places, ids[i], ids[j])
  }

  lemma {:induction false} FirstExists(places: map<nat, Place>, ids: set<nat>)
    requires ids != {} && ids <= places.Keys
    ensures exists k :: k in ids && forall j :: j in ids && j != k ==> Precedes(places, k, j)
    decreases |ids|
  {
    var x :| x in ids;
    var rest := ids - {x};
    if rest == {} {
      assert ids == {x};
    } else {
      FirstExists(places, rest);
      var k :| k in rest && forall j :: j in rest && j != k ==> Precedes(places, k, j);
      if Precedes(places, x, k) {
        forall j | j in ids && j != x ensures Precedes(places, x, j) {
          if j != k {
            assert j in rest && Precedes(places, k, j);
          }
        }
      } else {
        assert Precedes(places, k, x);
        assert forall j :: j in ids && j != k ==> Precedes(places, k, j);
      }
    }
  }

  /** The id among `ids` whose place comes first in the listing order. */
  function First(places: map<nat, Place>, ids: set<nat>): (k: nat)
    requires ids != {} && ids <= places.Keys
    ensures k in ids && forall j :: j in ids && j != k ==> Precedes(places, k, j)
  {
    FirstExists(places, ids);
    var k :| k in ids && forall j :: j in ids && j != k ==> Precedes(places, k, j);
    k
  }

  /** The ids of `ids` in listing order: each once, latest modification first. */
  function OrderByModifiedDateDesc(places: map<nat, Place>, ids: set<nat>): (r: seq<nat>)
    requires ids <= places.Keys
    ensures |r| == |ids|
    ensures forall k :: k in r <==> k in ids
    ensures InListingOrder(places, r)
    decreases |ids|
  {
    if ids == {} then []
    else
      var k := First(places, ids);
      [k] + OrderByModifiedDateDesc(places, ids - {k})
  }

  /** The places stored under `ids`, in that order. */
  function PlacesAt(places: map<nat, Place>, ids: seq<nat>): (r: seq<Place>)
    requires forall i :: 0 <= i < |ids| ==> ids[i] in places
    ensures |r| == |ids| && forall i :: 0 <= i < |ids| ==> r[i] == places[ids[i]]
  {
    seq(|ids|, i requires 0 <= i < |ids| => places[ids[i]])
  }

  /** Every stored place once. The repository promises no order; this model
      lists them latest modification first. */
  function FindAll(places: map<nat, Place>): (r: seq<Place>)
    ensures |r| == |places|
    ensures forall i :: 0 <= i < |r| ==> r[i] in places.Values
    ensures forall k :: k in places ==> places[k] in r
  {
    var ids := OrderByModifiedDateDesc(places, places.Keys);
    var r := PlacesAt(places, ids);
    assert forall k :: k in places ==> places[k] in r by {
      forall k | k in places ensures places[k] in r {
        var i :| 0 <= i < |ids| && ids[i] == k;
        assert r[i] == places[k];
      }
    }
    r
  }

  /** The ids of the places stored with the given status. */
  function IdsWithStatus(places: map<nat, Place>, status: PlaceStatus): (r: set<nat>)
    ensures forall k :: k in r <==> k in places && places[k].status == status
  {
    set k | k in places && places[k].status == status
  }

  /** The repository query behind the status listing: one entry per stored
      place with the given status, and no other, ordered by modification
      date, latest first. */
  function FindAllByStatusOrderByModifiedDateDesc(places: map<nat, Place>, status: PlaceStatus): (r: seq<Place>)
    ensures |r| == |IdsWithStatus(places, status)|
    ensures forall i :: 0 <= i < |r| ==> r[i] in places.Values && r[i].status == status
    ensures forall k :: k in places && places[k].status == status ==> places[k] in r
    ensures forall i, j :: 0 <= i < j < |r| ==> r[i].modifiedDate >= r[j].modifiedDate
  {
    var ids := OrderByModifiedDateDesc(places, IdsWithStatus(places, status));
    var r := PlacesAt(places, ids);
    assert forall k :: k in places && places[k].status == status ==> places[k] in r by {
      forall k | k in places && places[k].status == status ensures places[k] in r {
        var i :| 0 <= i < |ids| && ids[i] == k;
        assert r[i] == places[k];
      }
    }
    assert forall i, j :: 0 <= i < j < |r| ==> r[i].modifiedDate >= r[j].modifiedDate by {
      forall i, j | 0 <= i < j < |r| ensures r[i].modifiedDate >= r[j].modifiedDate {
        assert Precedes(places, ids[i], ids[j]);
      }
    }
    r
  }

  /** The admin summaries of the places with the given status: the listing
      above, each place turned into its summary by `toDto` (the object
      mapper), in the same order. */
  function GetPlacesByStatus<D>(places: map<nat, Place>, status: PlaceStatus, toDto: Place -> D): (r: seq<D>)
    ensures |r| == |IdsWithStatus(places, status)|
    ensures forall i :: 0 <= i < |r| ==>
      r[i] == toDto(FindAllByStatusOrderByModifiedDateDesc(places, status)[i])
  {
    var listed := FindAllByStatusOrderByModifiedDateDesc(places, status);
    seq(|listed|, i requires 0 <= i < |listed| => toDto(listed[i]))
  }

  /** The places of `ps` with the given status, in their order in `ps`. */
  function WithStatus(ps: seq<Place>, status: PlaceStatus): (r: seq<Place>)
    ensures forall p :: p in r <==> p in ps && p.status == status
  {
    if ps == [] then []
    else (if ps[0].status == status then [ps[0]] else []) + WithStatus(ps[1..], status)
  }

  /** The ids of `ids` whose places have the given status, in their order. */
  function IdsFiltered(places: map<nat, Place>, ids: seq<nat>, status: PlaceStatus): (r: seq<nat>)
    requires forall i :: 0 <= i < |ids| ==> ids[i] in places
    ensures forall k :: k in r <==> k in ids && places[k].status == status
    ensures forall i :: 0 <= i < |r| ==> r[i] in places
  {
    if ids == [] then []
    else (if places[ids[0]].status == status then [ids[0]] else []) + IdsFiltered(places, ids[1..], status)
  }

  lemma {:induction false} FilterKeepsOrder(places: map<nat, Place>, ids: seq<nat>, status: PlaceStatus)
    requires forall i :: 0 <= i < |ids| ==> ids[i] in places
    requires InListingOrder(places, ids)
    ensures InListingOrder(places, IdsFiltered(places, ids, status))
    decreases |ids|
  {
    if ids != [] {
      var tail := ids[1..];
      assert InListingOrder(places, tail) by {
        forall i, j | 0 <= i < j < |tail| ensures Precedes(places, tail[i], tail[j]) {
          assert tail[i] == ids[i + 1] && tail[j] == ids[j + 1];
        }
      }
      FilterKeepsOrder(places, tail, status);
      var rest := IdsFiltered(places, tail, status);
      forall j | 0 <= j < |rest| ensures Precedes(places, ids[0], rest[j]) {
        assert rest[j] in tail;
        var m :| 0 <= m < |tail| && tail[m] == rest[j];
        assert tail[m] == ids[m + 1];
      }
    }
  }

  lemma PlacesAtAppend(places: map<nat, Place>, x: seq<nat>, y: seq<nat>)
    requires forall i :: 0 <= i < |x| ==> x[i] in places
    requires forall i :: 0 <= i < |y| ==> y[i] in places
    ensures forall i :: 0 <= i < |x + y| ==> (x + y)[i] in places
    ensures PlacesAt(places, x + y) == PlacesAt(places, x) + PlacesAt(places, y)
  {
  }

  lemma {:induction false} FilterThenLookup(places: map<nat, Place>, ids: seq<nat>, status: PlaceStatus)
    requires forall i :: 0 <= i < |ids| ==> ids[i] in places
    ensures PlacesAt(places, IdsFiltered(places, ids, status)) == WithStatus(PlacesAt(places, ids), status)
    decreases |ids|
  {
    if ids != [] {
      var tail := ids[1..];
      var all := PlacesAt(places, ids);
      var rest := IdsFiltered(places, tail, status);
      FilterThenLookup(places, tail, status);
      assert all[1..] == PlacesAt(places, tail);
      assert all[0] == places[ids[0]];
      var head: seq<nat> := if places[ids[0]].status == status then [ids[0]] else [];
      assert IdsFiltered(places, ids, status) == head + rest;
      PlacesAtAppend(places, head, rest);
      assert PlacesAt(places, head) == if all[0].status == status then [all[0]] else [];
    }
  }

  /** A listing order admits only one arrangement of a given set of ids. */
  lemma {:induction false} ListingOrderIsUnique(places: map<nat, Place>, a: seq<nat>, b: seq<nat>)
    requires InListingOrder(places, a) && InListingOrder(places, b)
    requires forall k :: k in a <==> k in b
    ensures a == b
    decreases |a|
  {
    assert a == [] <==> b == [] by {
      if a != [] { assert a[0] in a; }
      if b != [] { assert b[0] in b; }
    }
    if a != [] {
      assert a[0] in a && b[0] in b;
      assert a[0] == b[0] by {
        var i :| 0 <= i < |a| && a[i] == b[0];
        var j :| 0 <= j < |b| && b[j] == a[0];
        assert i == 0 || Precedes(places, a[0], b[0]);
        assert j == 0 || Precedes(places, b[0], a[0]);
      }
      var a', b' := a[1..], b[1..];
      forall k ensures k in a' <==> k in b' {
        if k in a' {
          var i :| 0 <= i < |a'| && a'[i] == k;
          assert a[i + 1] == k && Precedes(places, a[0], k);
          assert k in b;
          var j :| 0 <= j < |b| && b[j] == k;
          assert j != 0;
          assert b'[j - 1] == k;
        }
        if k in b' {
          var j :| 0 <= j < |b'| && b'[j] == k;
          assert b[j + 1] == k && Precedes(places, b[0], k);
          assert k in a;
          var i :| 0 <= i < |a| && a[i] == k;
          assert i != 0;
          assert a'[i - 1] == k;
        }
      }
      assert InListingOrder(places, a') by {
        forall i, j | 0 <= i < j < |a'| ensures Precedes(places, a'[i], a'[j]) {
          assert a'[i] == a[i + 1] && a'[j] == a[j + 1];
        }
      }
      assert InListingOrder(places, b') by {
        forall i, j | 0 <= i < j < |b'| ensures Precedes(places, b'[i], b'[j]) {
          assert b'[i] == b[i + 1] && b'[j] == b[j + 1];
        }
      }
      ListingOrderIsUnique(places, a', b');
    }
  }

  /** The status listing is the model's full listing with the other statuses
      dropped. */
  lemma FindAllByStatusIsFilteredFindAll(places: map<nat, Place>, status: PlaceStatus)
    ensures FindAllByStatusOrderByModifiedDateDesc(places, status) == WithStatus(FindAll(places), status)
  {
    var all := OrderByModifiedDateDesc(places, places.Keys);
    var filtered := IdsFiltered(places, all, status);
    var matching := OrderByModifiedDateDesc(places, IdsWithStatus(places, status));
    FilterKeepsOrder(places, all, status);
    ListingOrderIsUnique(places, filtered, matching);
    FilterThenLookup(places, all, status);
  }
}
