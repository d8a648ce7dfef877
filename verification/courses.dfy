/** The shared course catalogue: the document shape of
    backend/models/Course.js and the handlers of
    backend/controllers/courseController.js.

    Every signed-in user sees every course; only the user recorded in
    `addedBy` may edit or delete one. Course codes are unique (a unique
    index), titles are trimmed and required. */
module Courses {
  import opened Common
  import opened Strings
  import Listing

  /** `addedBy` is optional in the schema; the handlers always set it. */
  datatype Course = Course(title: string, code: string, description: Option<string>, addedBy: Option<Id>, createdAt: int)

  type Store = map<Id, Course>

  predicate WellFormed(c: Course)
  {
    c.title != "" && Trimmed(c.title) && c.code != ""
  }

  /** `code` is taken by a course other than `except`. */
  predicate CodeTakenBy(store: Store, code: string, except: Option<Id>)
  {
    exists k :: k in store && store[k].code == code && except != Some(k)
  }

  predicate Valid(store: Store)
  {
    && (forall id :: id in store ==> WellFormed(store[id]))
    && (forall a, b :: a in store && b in store && store[a].code == store[b].code ==> a == b)
  }

  datatype Body = Message(text: string) | CourseDoc(id: Id, course: Course) | ErrorMessage

  datatype Reply = Reply(status: int, body: Body, store: Store)

  function Failed(store: Store): Reply
  {
    Reply(500, ErrorMessage, store)
  }

  /** Storing `c` under `id` keeps the store valid when `c` is well formed
      and its code belongs to no other course. */
  lemma ValidAfterPut(store: Store, id: Id, c: Course)
    requires Valid(store)
    requires WellFormed(c)
    requires !CodeTakenBy(store, c.code, Some(id))
    ensures Valid(store[id := c])
  {
    var s := store[id := c];
    forall k | k in store && k != id
      ensures store[k].code != c.code
    {
    }
    forall a, b | a in s && b in s && s[a].code == s[b].code
      ensures a == b
    {
      if a != id && b != id {
        assert store[a].code == store[b].code;
      }
    }
  }

  /** `createCourse`: title and code are required up front, the code must
      be new, and the creator is recorded. */
  function CreateCourse(store: Store, caller: Id, title: Field<string>, code: Field<string>,
                        description: Field<string>, now: int): (r: Reply)
    ensures r.status == 400 <==>
      !Truthy(title) || !Truthy(code) || CodeTakenBy(store, code.value, None)
    ensures r.status == 201 <==>
      Truthy(title) && Truthy(code) && !CodeTakenBy(store, code.value, None) && Trim(title.value) != ""
    ensures r.status in {201, 400, 500}
    ensures r.status != 201 ==> r.store == store
    ensures r.status == 201 ==>
      && r.body.CourseDoc? && r.body.id !in store
      && r.store == store[r.body.id := r.body.course]
      && r.body.course == Course(Trim(title.value), code.value, FieldToOption(description), Some(caller), now)
    ensures Valid(store) ==> Valid(r.store)
  {
    if !Truthy(title) || !Truthy(code) then Reply(400, Message("Course title and code are required"), store)
    else if CodeTakenBy(store, code.value, None) then Reply(400, Message("A course with this code already exists"), store)
    else if Trim(title.value) == "" then Failed(store)
    else
      var id := FreshId(store);
      var c := Course(Trim(title.value), code.value, FieldToOption(description), Some(caller), now);
      assert Valid(store) ==> Valid(store[id := c]) by {
        if Valid(store) {
          ValidAfterPut(store, id, c);
        }
      }
      Reply(201, CourseDoc(id, c), store[id := c])
  }

  /** `getCourse`: the only handler that answers a malformed id with 404. */
  function GetCourse(store: Store, param: IdParam): (r: Reply)
    ensures r.store == store
    ensures r.status == 200 <==> param.Parsed? && param.id in store
    ensures r.status == 200 ==> r.body == CourseDoc(param.id, store[param.id])
    ensures r.status != 200 ==> r.status == 404
    ensures param.Malformed? ==> r.body == Message("Invalid course ID format.")
  {
    match param
    case Malformed => Reply(404, Message("Invalid course ID format."), store)
    case Parsed(id) =>
      if id in store then Reply(200, CourseDoc(id, store[id]), store)
      else Reply(404, Message("Course not found"), store)
  }

  /** The course records a creator, and it is not `caller`. */
  predicate AddedByOther(c: Course, caller: Id)
  {
    c.addedBy.Some? && c.addedBy.value != caller
  }

  predicate IsCreatorOf(store: Store, caller: Id, param: IdParam)
  {
    param.Parsed? && param.id in store && store[param.id].addedBy == Some(caller)
  }

  /** The failure behaviour shared by `updateCourse` and `deleteCourse`. A
      course without `addedBy` makes the ownership test throw, so nobody
      can edit or delete it. */
  predicate CreatorRejection(store: Store, caller: Id, param: IdParam, r: Reply)
  {
    && (param.Malformed? ==> r.status == 500)
    && (param.Parsed? && param.id !in store ==> r.status == 404)
    && (param.Parsed? && param.id in store && store[param.id].addedBy.None? ==> r.status == 500)
    && (param.Parsed? && param.id in store && AddedByOther(store[param.id], caller) ==> r.status == 401)
    && (!IsCreatorOf(store, caller, param) ==> r.store == store)
  }

  function CreatorGate(store: Store, caller: Id, param: IdParam, denied: string): (r: Option<Reply>)
    ensures r.None? <==> IsCreatorOf(store, caller, param)
    ensures r.Some? ==> CreatorRejection(store, caller, param, r.value)
  {
    match param
    case Malformed => Some(Failed(store))
    case Parsed(id) =>
      if id !in store then Some(Reply(404, Message("Course not found"), store))
      else if store[id].addedBy.None? then Some(Failed(store))
      else if store[id].addedBy.value != caller then Some(Reply(401, Message(denied), store))
      else None
  }

  /** `updateCourse`: title and code change only to non-empty values, the
      description whenever one is sent (even an empty one, and a JSON
      `null`, `Given(None)`, which clears it); a code already held by
      another course, or a title of spaces, fails the save. */
  function UpdateCourse(store: Store, caller: Id, param: IdParam,
                        title: Field<string>, code: Field<string>, description: Field<Option<string>>): (r: Reply)
    ensures CreatorRejection(store, caller, param, r)
    ensures IsCreatorOf(store, caller, param) ==>
      var c := store[param.id];
      var title' := Trim(OrKeep(title, c.title));
      var code' := OrKeep(code, c.code);
      var ok := title' != "" && code' != "" && !CodeTakenBy(store, code', Some(param.id));
      && (!ok ==> r.status == 500 && r.store == store)
      && (ok ==>
            && r.status == 200
            && param.id in r.store
            && r.store == store[param.id := r.store[param.id]]
            && r.store[param.id].title == title'
            && r.store[param.id].code == code'
            && (description.Given? ==> r.store[param.id].description == description.value)
            && (description.Undefined? ==> r.store[param.id].description == c.description)
            && r.store[param.id].addedBy == c.addedBy
            && r.store[param.id].createdAt == c.createdAt
            && r.body == CourseDoc(param.id, r.store[param.id]))
    ensures Valid(store) ==> Valid(r.store)
  {
    match CreatorGate(store, caller, param, "Not authorized to edit this course")
    case Some(rejected) => rejected
    case None =>
      var c := store[param.id];
      var c' := c.(title := Trim(OrKeep(title, c.title)),
                   code := OrKeep(code, c.code),
                   description := IfDefined(description, c.description));
      if c'.title == "" || c'.code == "" || CodeTakenBy(store, c'.code, Some(param.id)) then Failed(store)
      else
        assert Valid(store) ==> Valid(store[param.id := c']) by {
          if Valid(store) {
            ValidAfterPut(store, param.id, c');
          }
        }
        Reply(200, CourseDoc(param.id, c'), store[param.id := c'])
  }

  /** A JSON `null` description clears the stored one, whereas a `null`
      title or code keeps the old value, since `||` treats it as falsy. */
  lemma NullClearsDescription(store: Store, caller: Id, id: Id)
    requires Valid(store) && IsCreatorOf(store, caller, Parsed(id))
    ensures var r := UpdateCourse(store, caller, Parsed(id), Undefined, Undefined, Given(None));
      && r.status == 200
      && r.store == store[id := store[id].(description := None)]
  {
    TrimFixpoint(store[id].title);
    assert !CodeTakenBy(store, store[id].code, Some(id));
  }

  /** `deleteCourse`: the creator removes exactly that course. */
  function DeleteCourse(store: Store, caller: Id, param: IdParam): (r: Reply)
    ensures CreatorRejection(store, caller, param, r)
    ensures IsCreatorOf(store, caller, param) ==>
      && r.status == 200
      && r.store.Keys == store.Keys - {param.id}
      && forall k :: k in r.store ==> r.store[k] == store[k]
    ensures Valid(store) ==> Valid(r.store)
  {
    match CreatorGate(store, caller, param, "Not authorized to delete this course")
    case Some(rejected) => rejected
    case None => Reply(200, Message("Course removed successfully"), store - {param.id})
  }

  /** A course stays editable only by the user who added it: every other
      caller is refused, whatever the request, and nothing changes. */
  lemma OnlyCreatorEdits(store: Store, caller: Id, id: Id,
                         title: Field<string>, code: Field<string>, description: Field<Option<string>>)
    requires id in store && store[id].addedBy != Some(caller)
    ensures UpdateCourse(store, caller, Parsed(id), title, code, description).store == store
    ensures DeleteCourse(store, caller, Parsed(id)).store == store
    ensures UpdateCourse(store, caller, Parsed(id), title, code, description).status in {401, 500}
  {
  }

  /** Creating a second course with the same code is refused. */
  lemma DuplicateCodeRefused(store: Store, caller: Id, other: Id, title: string, code: string,
                             description: Field<string>, now: int, first: Reply)
    requires first == CreateCourse(store, caller, Given(title), Given(code), description, now)
    requires first.status == 201
    ensures CreateCourse(first.store, other, Given(title), Given(code), description, now).status == 400
  {
    assert first.store[first.body.id].code == code;
  }

  /** `getCourses`: every course, newest first. */
  method GetCourses(store: Store) returns (r: seq<(Id, Course)>)
    ensures forall i :: 0 <= i < |r| ==> r[i].0 in store && r[i].1 == store[r[i].0]
    ensures forall id :: id in store ==> (id, store[id]) in r
    ensures multiset(r) == multiset(Listing.Selected(store, (c: Course) => true, store.Keys))
    ensures forall i, j :: 0 <= i < j < |r| ==> r[i].1.createdAt >= r[j].1.createdAt
  {
    r := Listing.NewestFirst(store, (c: Course) => true, (c: Course) => c.createdAt);
  }
}
