/** The four per-record endpoints of the student controller (find, create,
    update, delete) as pure functions over the store. Each handler returns
    its response together with the store it leaves behind. The repository
    is the map from id to record; the fresh id the repository assigns on
    create and the clock are parameters. */
module Controller {
  import opened Optional
  import opened Domain
  import Text
  import Validator

  /** The repository: records by id. */
  type Store = map<int, Student>

  /** What a handler answers: 200 with a record, 201 with a location, or 400
      with a problem title and detail. */
  datatype Response =
    | Ok(student: Student)
    | Created(location: string)
    | BadRequest(title: string, detail: string)

  /** The controller's base path, which also prefixes the location of a new record. */
  const BasePath: string := "/api/v1/student/"

  const FindTitle: string := "Error find student"
  const SaveTitle: string := "Error save student"
  /** Used by update and, unchanged, by delete. */
  const UpdateTitle: string := "Error update student"

  const NotFoundPrefix: string := "Student by id="
  const NotFoundSuffix: string := " not found"

  /** Every record is stored under its own id. */
  ghost predicate WellKeyed(store: Store) {
    forall k :: k in store ==> store[k].id == k
  }

  /** Every stored record passes all five checks at time `now`. */
  ghost predicate AllValid(store: Store, now: int) {
    forall k :: k in store ==> Validator.Valid(store[k], now)
  }

  // ---------------------------------------------------------------------
  // Texts carrying an id

  /** The problem detail for a missing id. */
  function NotFoundDetail(id: int): (d: string)
    ensures NotFoundPrefix <= d
    ensures |d| > |NotFoundPrefix| + |NotFoundSuffix|
    ensures d[|d| - |NotFoundSuffix|..] == NotFoundSuffix
  {
    NotFoundPrefix + Text.IntToDecimal(id) + NotFoundSuffix
  }

  /** The id named by a not-found detail, if `detail` is one. */
  function NotFoundId(detail: string): Option<int> {
    if |detail| >= |NotFoundPrefix| + |NotFoundSuffix|
      && detail[..|NotFoundPrefix|] == NotFoundPrefix
      && detail[|detail| - |NotFoundSuffix|..] == NotFoundSuffix
    then Text.ParseInt(detail[|NotFoundPrefix|..|detail| - |NotFoundSuffix|])
    else None
  }

  /** The location header of a newly created record. */
  function Location(id: int): (l: string)
    ensures BasePath <= l && |l| > |BasePath|
  {
    BasePath + Text.IntToDecimal(id)
  }

  /** The id a location points at, if `location` is one. */
  function LocationId(location: string): Option<int> {
    if |location| >= |BasePath| && location[..|BasePath|] == BasePath
    then Text.ParseInt(location[|BasePath|..])
    else None
  }

  lemma Framed(p: string, m: string, s: string)
    ensures (p + m + s)[..|p|] == p
    ensures (p + m + s)[|p| + |m|..] == s
    ensures (p + m + s)[|p|..|p| + |m|] == m
  {
  }

  /** The detail of a not-found response names exactly the id asked for. */
  lemma NotFoundDetailRoundTrip(id: int)
    ensures NotFoundId(NotFoundDetail(id)) == Some(id)
  {
    var d := Text.IntToDecimal(id);
    Framed(NotFoundPrefix, d, NotFoundSuffix);
    Text.IntRoundTrip(id);
  }

  /** A text read as a not-found detail for `id` is exactly the detail for `id`. */
  lemma NotFoundIdExact(detail: string, id: int)
    ensures NotFoundId(detail) == Some(id) ==> detail == NotFoundDetail(id)
  {
    if NotFoundId(detail) == Some(id) {
      var mid := detail[|NotFoundPrefix|..|detail| - |NotFoundSuffix|];
      Text.ParseIntExact(mid, id);
      assert detail == detail[..|NotFoundPrefix|] + mid + detail[|detail| - |NotFoundSuffix|..];
    }
  }

  /** The detail for a missing id 999, written out. */
  lemma NotFoundDetailSample()
    ensures NotFoundDetail(999) == "Student by id=999 not found"
  {
    assert Text.NatToDecimal(9) == "9";
    assert Text.NatToDecimal(99) == "99";
    assert Text.NatToDecimal(999) == "999";
  }

  /** Different ids give different not-found details. */
  lemma NotFoundDetailInjective(a: int, b: int)
    ensures NotFoundDetail(a) == NotFoundDetail(b) <==> a == b
  {
    NotFoundDetailRoundTrip(a);
    NotFoundDetailRoundTrip(b);
  }

  /** The location of a created record leads back to its id. */
  lemma LocationRoundTrip(id: int)
    ensures LocationId(Location(id)) == Some(id)
  {
    assert (BasePath + Text.IntToDecimal(id))[|BasePath|..] == Text.IntToDecimal(id);
    Text.IntRoundTrip(id);
  }

  /** A text read as the location of `id` is exactly the location of `id`. */
  lemma LocationIdExact(location: string, id: int)
    ensures LocationId(location) == Some(id) ==> location == Location(id)
  {
    if LocationId(location) == Some(id) {
      Text.ParseIntExact(location[|BasePath|..], id);
      assert location == location[..|BasePath|] + location[|BasePath|..];
    }
  }

  // ---------------------------------------------------------------------
  // Handlers

  /** `GET find/{id}`. */
  function Find(store: Store, id: int): (res: (Response, Store))
    ensures res.1 == store
    ensures res.0.Ok? <==> id in store
    ensures res.0.Ok? ==> res.0.student == store[id]
    ensures !res.0.Ok? ==>
      && res.0.BadRequest?
      && res.0.title == FindTitle
      && res.0.detail == NotFoundDetail(id)
      && NotFoundId(res.0.detail) == Some(id)
  {
    if id in store then (Ok(store[id]), store)
    else
      NotFoundDetailRoundTrip(id);
      (BadRequest(FindTitle, NotFoundDetail(id)), store)
  }

  /** `POST`: validates at time `now` and, when valid, stores the record under
      `newId`, the id the repository generates for it. */
  function Create(store: Store, st: Student, now: int, newId: int): (res: (Response, Store))
    requires newId !in store
    ensures res.0.Created? <==> Validator.Valid(st, now)
    ensures res.0.Created? ==>
      && res.0.location == Location(newId)
      && LocationId(res.0.location) == Some(newId)
      && res.1 == store[newId := st.(id := newId)]
    ensures !res.0.Created? ==>
      && res.1 == store
      && res.0.BadRequest? && res.0.title == SaveTitle
      && Validator.Diagnose(res.0.detail) == Some(Validator.Failing(st, now))
      && res.0.detail != ""
  {
    var message := Validator.CheckStudent(st, now);
    Validator.CheckStudentEmptyIffValid(st, now);
    Validator.DiagnoseCheckStudent(st, now);
    if message == "" then
      LocationRoundTrip(newId);
      (Created(Location(newId)), store[newId := st.(id := newId)])
    else (BadRequest(SaveTitle, message), store)
  }

  /** The record update writes: the stored record with the five editable
      fields taken from the request. */
  function Merge(stored: Student, request: Student): (merged: Student)
    ensures merged.id == stored.id
  {
    stored.(firstName := request.firstName, lastName := request.lastName, birthday := request.birthday,
            phone := request.phone, email := request.email)
  }

  /** Merging keeps only the stored id: it is the request re-keyed. */
  lemma MergeIsRekeyedRequest(stored: Student, request: Student)
    ensures Merge(stored, request) == request.(id := stored.id)
  {
  }

  /** `PUT {id}`: merges the request into the stored record and saves it when valid at time `now`. */
  function Update(store: Store, id: int, request: Student, now: int): (res: (Response, Store))
    ensures id !in store ==>
      && res.1 == store
      && res.0.BadRequest? && res.0.title == UpdateTitle
      && res.0.detail == NotFoundDetail(id)
      && NotFoundId(res.0.detail) == Some(id)
    ensures id in store ==>
      (res.0.Ok? <==> Validator.Valid(request.(id := store[id].id), now))
    ensures res.0.Ok? ==>
      && res.0.student == request.(id := store[id].id)
      && res.1 == store[id := res.0.student]
    ensures !res.0.Ok? ==> res.1 == store && res.0.BadRequest? && res.0.title == UpdateTitle
    ensures id in store && !res.0.Ok? ==>
      Validator.Diagnose(res.0.detail) == Some(Validator.Failing(Merge(store[id], request), now))
  {
    if id in store then
      var merged := Merge(store[id], request);
      MergeIsRekeyedRequest(store[id], request);
      var message := Validator.CheckStudent(merged, now);
      Validator.CheckStudentEmptyIffValid(merged, now);
      Validator.DiagnoseCheckStudent(merged, now);
      if message == "" then (Ok(merged), store[id := merged])
      else (BadRequest(UpdateTitle, message), store)
    else
      NotFoundDetailRoundTrip(id);
      (BadRequest(UpdateTitle, NotFoundDetail(id)), store)
  }

  /** `DELETE delete/{id}`: removes the record and answers with it. */
  function Delete(store: Store, id: int): (res: (Response, Store))
    ensures res.0.Ok? <==> id in store
    ensures res.0.Ok? ==>
      && res.0.student == store[id]
      && res.1.Keys == store.Keys - {id}
      && forall k :: k in res.1 ==> res.1[k] == store[k]
    ensures !res.0.Ok? ==>
      && res.1 == store
      && res.0.BadRequest? && res.0.title == UpdateTitle
      && res.0.detail == NotFoundDetail(id)
      && NotFoundId(res.0.detail) == Some(id)
  {
    if id in store then (Ok(store[id]), store - {id})
    else
      NotFoundDetailRoundTrip(id);
      (BadRequest(UpdateTitle, NotFoundDetail(id)), store)
  }

  // ---------------------------------------------------------------------
  // Invariants

  /** Create stores the new record under its generated id. */
  lemma CreateKeepsWellKeyed(store: Store, st: Student, now: int, newId: int)
    requires WellKeyed(store) && newId !in store
    ensures WellKeyed(Create(store, st, now, newId).1)
  {
  }

  /** Update keeps the stored id of the record it overwrites. */
  lemma UpdateKeepsWellKeyed(store: Store, id: int, request: Student, now: int)
    requires WellKeyed(store)
    ensures WellKeyed(Update(store, id, request, now).1)
  {
  }

  lemma DeleteKeepsWellKeyed(store: Store, id: int)
    requires WellKeyed(store)
    ensures WellKeyed(Delete(store, id).1)
  {
  }

  /** Create only adds a record that passed validation. */
  lemma CreateKeepsAllValid(store: Store, st: Student, now: int, newId: int)
    requires AllValid(store, now) && newId !in store
    ensures AllValid(Create(store, st, now, newId).1, now)
  {
    if Create(store, st, now, newId).0.Created? {
      Validator.ValidIgnoresId(st, newId, now);
    }
  }

  /** Update only writes a merged record that passed validation. */
  lemma UpdateKeepsAllValid(store: Store, id: int, request: Student, now: int)
    requires AllValid(store, now)
    ensures AllValid(Update(store, id, request, now).1, now)
  {
  }

  lemma DeleteKeepsAllValid(store: Store, id: int, now: int)
    requires AllValid(store, now)
    ensures AllValid(Delete(store, id).1, now)
  {
  }

  /** A record valid at one time stays valid later: only the birthday check
      depends on the clock, and it only becomes easier to pass. */
  lemma AllValidLater(store: Store, t0: int, t1: int)
    requires AllValid(store, t0) && t0 <= t1
    ensures AllValid(store, t1)
  {
  }

  // ---------------------------------------------------------------------
  // Handlers in sequence

  /** A created record can be found under the id of its location. */
  lemma CreateThenFind(store: Store, st: Student, now: int, newId: int)
    requires newId !in store
    ensures Create(store, st, now, newId).0.Created? ==>
      && LocationId(Create(store, st, now, newId).0.location) == Some(newId)
      && Find(Create(store, st, now, newId).1, newId).0 == Ok(st.(id := newId))
  {
  }

  /** Deleting a record just created restores the store. */
  lemma CreateThenDelete(store: Store, st: Student, now: int, newId: int)
    requires newId !in store
    ensures Delete(Create(store, st, now, newId).1, newId).1 == store
  {
    if Create(store, st, now, newId).0.Created? {
      AddThenRemove(store, newId, st.(id := newId));
    }
  }

  lemma AddThenRemove(store: Store, k: int, v: Student)
    requires k !in store
    ensures store[k := v] - {k} == store
  {
    assert (store[k := v] - {k}).Keys == store.Keys;
  }

  /** After a successful update, find returns the merged record. */
  lemma UpdateThenFind(store: Store, id: int, request: Student, now: int)
    ensures Update(store, id, request, now).0.Ok? ==>
      Find(Update(store, id, request, now).1, id).0 == Update(store, id, request, now).0
  {
  }

  /** Sending the same update twice leaves the same store as sending it once. */
  lemma UpdateIdempotent(store: Store, id: int, request: Student, now: int)
    ensures Update(Update(store, id, request, now).1, id, request, now).1 == Update(store, id, request, now).1
  {
    var first := Update(store, id, request, now);
    if first.0.Ok? {
      var merged := first.0.student;
      assert first.1[id] == merged && merged.id == store[id].id;
      MergeIsRekeyedRequest(first.1[id], request);
      assert Merge(first.1[id], request) == merged;
      assert first.1[id := merged] == first.1;
    }
  }

  /** After a delete the id is gone: a second delete or a find reports it missing. */
  lemma DeleteThenFind(store: Store, id: int)
    ensures Find(Delete(store, id).1, id).0 == BadRequest(FindTitle, NotFoundDetail(id))
    ensures Delete(Delete(store, id).1, id).1 == Delete(store, id).1
  {
  }

  /** A rejected create or update, and every find, leaves the store as it was. */
  lemma RejectionsChangeNothing(store: Store, id: int, st: Student, now: int, newId: int)
    requires newId !in store
    ensures Find(store, id).1 == store
    ensures !Validator.Valid(st, now) ==> Create(store, st, now, newId).1 == store
    ensures id in store && !Validator.Valid(Merge(store[id], st), now) ==> Update(store, id, st, now).1 == store
  {
    if id in store {
      MergeIsRekeyedRequest(store[id], st);
    }
  }
}
