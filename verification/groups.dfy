/** Collaboration groups: the document shape of backend/models/Group.js and
    the request handlers of backend/controllers/groupController.js, each a
    pure transition from (store, caller, request) to (status, body, store).

    The handlers are wrapped in `express-async-handler`, so anything that
    throws inside them — a cast error on a malformed `:id`, a failed
    validation or a unique-index violation on `save` — reaches the fallback
    error middleware of backend/server.js, which answers 500 'Something
    broke!'. Nothing is written in that case. */
module Groups {
  import opened Common
  import opened Strings
  import Listing

  /** The `projectStatus` enum of the schema. */
  datatype ProjectStatus = ToDo | InProgress | Done

  function StatusName(p: ProjectStatus): string
  {
    match p
    case ToDo => "To do"
    case InProgress => "In progress"
    case Done => "Done"
  }

  /** The enum validator: a string names a status exactly when it is one of
      the three names, and then it names only that status. */
  function ParseStatus(s: string): (r: Option<ProjectStatus>)
    ensures r.Some? <==> (s == "To do" || s == "In progress" || s == "Done")
    ensures r.Some? ==> StatusName(r.value) == s
  {
    if s == "To do" then Some(ToDo)
    else if s == "In progress" then Some(InProgress)
    else if s == "Done" then Some(Done)
    else None
  }

  lemma ParseStatusName(p: ProjectStatus)
    ensures ParseStatus(StatusName(p)) == Some(p)
  {
  }

  /** An embedded discussion entry (the store also issues it an `_id`). */
  datatype Discussion = Discussion(text: string, user: Id, createdAt: int)

  datatype Group = Group(
    name: string,
    description: Option<string>,
    admin: Id,
    members: seq<Id>,
    assignmentTitle: Option<string>,
    deadline: Option<int>,
    projectStatus: ProjectStatus,
    discussions: seq<Discussion>,
    createdAt: int)

  type Store = map<Id, Group>

  /** What the schema and the handlers together keep true of one group. */
  predicate WellFormed(g: Group)
  {
    && g.name != "" && Trimmed(g.name)
    && g.admin in g.members
    && Distinct(g.members)
    && forall i :: 0 <= i < |g.discussions| ==> g.discussions[i].text != ""
  }

  /** Every group is well formed and group names are unique. */
  predicate Valid(store: Store)
  {
    && (forall id :: id in store ==> WellFormed(store[id]))
    && (forall a, b :: a in store && b in store && a != b ==> store[a].name != store[b].name)
  }

  predicate NameTaken(store: Store, name: string)
  {
    exists id | id in store :: store[id].name == name
  }

  lemma ValidAfterInsert(store: Store, id: Id, g: Group)
    requires Valid(store) && id !in store
    requires WellFormed(g) && !NameTaken(store, g.name)
    ensures Valid(store[id := g])
  {
    var s' := store[id := g];
    forall k | k in s'
      ensures WellFormed(s'[k])
    {
      if k != id {
        assert s'[k] == store[k];
      }
    }
    forall a, b | a in s' && b in s' && a != b
      ensures s'[a].name != s'[b].name
    {
      if a == id {
        assert s'[b] == store[b];
      } else if b == id {
        assert s'[a] == store[a];
      } else {
        assert s'[a] == store[a] && s'[b] == store[b];
      }
    }
  }

  lemma ValidAfterUpdate(store: Store, id: Id, g': Group)
    requires Valid(store) && id in store
    requires WellFormed(g') && g'.name == store[id].name
    ensures Valid(store[id := g'])
  {
    var s' := store[id := g'];
    forall k | k in s'
      ensures WellFormed(s'[k])
    {
      if k != id {
        assert s'[k] == store[k];
      }
    }
    forall a, b | a in s' && b in s' && a != b
      ensures s'[a].name != s'[b].name
    {
      assert s'[a].name == store[a].name && s'[b].name == store[b].name;
    }
  }

  /** `group.admin` as found: a bare id, or a user document after
      `populate('admin', ...)`. */
  datatype AdminRef = Plain(id: Id) | Populated(id: Id, firstName: string, email: string)

  /** `checkAdmin`: the caller is the admin, whichever shape `admin` has.
      Every admin-only handler loads the group without `populate`, so
      `AdminGate` only ever passes it the `Plain` shape; the populated arm
      models the helper's second branch, which no handler reaches. */
  function CheckAdmin(admin: AdminRef, caller: Id): (r: bool)
    ensures r <==> admin.id == caller
  {
    match admin
    case Populated(id, _, _) => id == caller
    case Plain(id) => id == caller
  }

  datatype Body =
    | Message(text: string)
    | GroupDoc(id: Id, group: Group)
    | DetailsDoc(id: Id, assignmentTitle: Option<string>, deadline: Option<int>, description: Option<string>)
    | StatusDoc(projectStatus: ProjectStatus)
    | MemberDoc(memberId: Id)
    | EntryDoc(entry: Discussion)
    | ServerError

  datatype Reply = Reply(status: int, body: Body, store: Store)

  /** The fallback error middleware: 500 and nothing written. */
  function Broke(store: Store): Reply
  {
    Reply(500, ServerError, store)
  }

  /** The caller is the admin of the group `:id` names. */
  predicate IsAdminOf(store: Store, caller: Id, param: IdParam)
  {
    param.Parsed? && param.id in store && store[param.id].admin == caller
  }

  /** The shared failure behaviour of every admin-only handler. */
  predicate AdminRejection(store: Store, caller: Id, param: IdParam, r: Reply)
  {
    && (param.Malformed? ==> r.status == 500)
    && (param.Parsed? && param.id !in store ==> r.status == 404)
    && (param.Parsed? && param.id in store && store[param.id].admin != caller ==> r.status == 403)
    && (!IsAdminOf(store, caller, param) ==> r.store == store)
  }

  /** The `findById` + `checkAdmin` prologue: a reply when the request stops
      there, `None` when the caller is the admin of an existing group. */
  function AdminGate(store: Store, caller: Id, param: IdParam, denied: string): (r: Option<Reply>)
    ensures r.None? <==> IsAdminOf(store, caller, param)
    ensures r.Some? ==> AdminRejection(store, caller, param, r.value)
  {
    match param
    case Malformed => Some(Broke(store))
    case Parsed(id) =>
      if id !in store then Some(Reply(404, Message("Group not found"), store))
      else if !CheckAdmin(Plain(store[id].admin), caller) then Some(Reply(403, Message(denied), store))
      else None
  }

  /** `createGroup`. The caller becomes admin and sole member; the schema
      trims the name, requires it, keeps it unique and fills the defaults. */
  function CreateGroup(store: Store, caller: Id, name: Field<string>, description: Field<string>, now: int): (r: Reply)
    ensures r.status == 201 || (r.status == 500 && r.store == store)
    ensures r.status == 201 <==>
      name.Given? && Trim(name.value) != "" && !NameTaken(store, Trim(name.value))
    ensures r.status == 201 ==>
      && r.body.GroupDoc?
      && r.body.id !in store
      && r.store == store[r.body.id := r.body.group]
      && r.body.group.name == Trim(name.value)
      && r.body.group.description == FieldToOption(description)
      && r.body.group.admin == caller
      && r.body.group.members == [caller]
      && r.body.group.assignmentTitle == Some("")
      && r.body.group.deadline == None
      && r.body.group.projectStatus == ToDo
      && r.body.group.discussions == []
    ensures r.status >= 400 ==> r.store == store
    ensures Valid(store) ==> Valid(r.store)
  {
    if name.Undefined? then Broke(store)
    else
      var trimmed := Trim(name.value);
      if trimmed == "" || NameTaken(store, trimmed) then Broke(store)
      else
        var id := FreshId(store);
        var g := Group(trimmed, FieldToOption(description), caller, [caller], Some(""), None, ToDo, [], now);
        assert Valid(store) ==> Valid(store[id := g]) by {
          if Valid(store) {
            ValidAfterInsert(store, id, g);
          }
        }
        Reply(201, GroupDoc(id, g), store[id := g])
  }

  /** `getGroupById`: members see the group, other callers are refused,
      an absent group is reported missing. */
  function GetGroupById(store: Store, caller: Id, param: IdParam): (r: Reply)
    ensures r.store == store
    ensures param.Malformed? ==> r.status == 500
    ensures param.Parsed? && param.id !in store ==> r.status == 404
    ensures param.Parsed? && param.id in store ==>
      && (r.status == 200 <==> caller in store[param.id].members)
      && (r.status == 200 ==> r.body == GroupDoc(param.id, store[param.id]))
      && (r.status != 200 ==> r.status == 403)
  {
    match param
    case Malformed => Broke(store)
    case Parsed(id) =>
      if id in store && caller in store[id].members then Reply(200, GroupDoc(id, store[id]), store)
      else if id in store then Reply(403, Message("Not authorized to view this group"), store)
      else Reply(404, Message("Group not found"), store)
  }

  /** `deleteGroup`: the admin removes exactly that group. */
  function DeleteGroup(store: Store, caller: Id, param: IdParam): (r: Reply)
    ensures AdminRejection(store, caller, param, r)
    ensures IsAdminOf(store, caller, param) ==>
      && r.status == 200
      && r.store.Keys == store.Keys - {param.id}
      && forall k :: k in r.store ==> r.store[k] == store[k]
    ensures r.status >= 400 ==> r.store == store
    ensures Valid(store) ==> Valid(r.store)
  {
    match AdminGate(store, caller, param, "Only the admin can delete the group")
    case Some(rejected) => rejected
    case None => Reply(200, Message("Group removed"), store - {param.id})
  }

  /** A second delete of the same group finds nothing. */
  lemma DeleteTwice(store: Store, caller: Id, id: Id)
    requires id in store && store[id].admin == caller
    ensures DeleteGroup(DeleteGroup(store, caller, Parsed(id)).store, caller, Parsed(id)).status == 404
  {
  }

  /** `updateGroupDetails`: overwrites each of assignmentTitle, deadline and
      description that the body defines, and nothing else. The test is
      `!== undefined`, so a JSON `null` (`Given(None)`) is stored too and
      clears the field. */
  function UpdateGroupDetails(store: Store, caller: Id, param: IdParam,
                              assignmentTitle: Field<Option<string>>, deadline: Field<Option<int>>,
                              description: Field<Option<string>>): (r: Reply)
    ensures AdminRejection(store, caller, param, r)
    ensures IsAdminOf(store, caller, param) ==>
      var g := store[param.id];
      && r.status == 200
      && param.id in r.store
      && r.store == store[param.id := r.store[param.id]]
      && var g' := r.store[param.id];
      && g'.name == g.name && g'.admin == g.admin && g'.members == g.members
      && g'.projectStatus == g.projectStatus && g'.discussions == g.discussions
      && g'.createdAt == g.createdAt
      && (assignmentTitle.Given? ==> g'.assignmentTitle == assignmentTitle.value)
      && (assignmentTitle.Undefined? ==> g'.assignmentTitle == g.assignmentTitle)
      && (deadline.Given? ==> g'.deadline == deadline.value)
      && (deadline.Undefined? ==> g'.deadline == g.deadline)
      && (description.Given? ==> g'.description == description.value)
      && (description.Undefined? ==> g'.description == g.description)
      && r.body == DetailsDoc(param.id, g'.assignmentTitle, g'.deadline, g'.description)
    ensures r.status >= 400 ==> r.store == store
    ensures Valid(store) ==> Valid(r.store)
  {
    match AdminGate(store, caller, param, "Only the admin can update assignment details")
    case Some(rejected) => rejected
    case None =>
      var g := store[param.id];
      var g' := g.(assignmentTitle := IfDefined(assignmentTitle, g.assignmentTitle),
                   deadline := IfDefined(deadline, g.deadline),
                   description := IfDefined(description, g.description));
      assert Valid(store) ==> Valid(store[param.id := g']) by {
        if Valid(store) {
          ValidAfterUpdate(store, param.id, g');
        }
      }
      Reply(200, DetailsDoc(param.id, g'.assignmentTitle, g'.deadline, g'.description), store[param.id := g'])
  }

  /** `!== undefined` tells a JSON `null` from an absent field: `null`
      clears the assignment title and the description, while `''` stores
      an empty string. */
  lemma NullClearsDetails(store: Store, caller: Id, id: Id, deadline: Field<Option<int>>)
    requires IsAdminOf(store, caller, Parsed(id))
    ensures var r := UpdateGroupDetails(store, caller, Parsed(id), Given(None), deadline, Given(None));
      r.status == 200 && r.store[id].assignmentTitle == None && r.store[id].description == None
    ensures var r := UpdateGroupDetails(store, caller, Parsed(id), Given(Some("")), deadline, Given(Some("")));
      r.status == 200 && r.store[id].assignmentTitle == Some("") && r.store[id].description == Some("")
    ensures var r := UpdateGroupDetails(store, caller, Parsed(id), Undefined, deadline, Undefined);
      r.status == 200 && r.store[id].assignmentTitle == store[id].assignmentTitle
      && r.store[id].description == store[id].description
  {
  }

  /** `updateAssignmentStatus`: the admin sets the status; a value outside
      the enum fails validation on save. */
  function UpdateAssignmentStatus(store: Store, caller: Id, param: IdParam, assignmentStatus: string): (r: Reply)
    ensures AdminRejection(store, caller, param, r)
    ensures IsAdminOf(store, caller, param) ==>
      match ParseStatus(assignmentStatus)
      case None => r.status == 500 && r.store == store
      case Some(p) =>
        && r.status == 200 && r.body == StatusDoc(p)
        && r.store == store[param.id := store[param.id].(projectStatus := p)]
        && StatusName(r.store[param.id].projectStatus) == assignmentStatus
    ensures r.status >= 400 ==> r.store == store
    ensures Valid(store) ==> Valid(r.store)
  {
    match AdminGate(store, caller, param, "Only the admin can change the assignment status")
    case Some(rejected) => rejected
    case None =>
      match ParseStatus(assignmentStatus)
      case None => Broke(store)
      case Some(p) =>
        var g' := store[param.id].(projectStatus := p);
        assert Valid(store) ==> Valid(store[param.id := g']) by {
          if Valid(store) {
            ValidAfterUpdate(store, param.id, g');
          }
        }
        Reply(200, StatusDoc(p), store[param.id := g'])
  }

  /** `addMember`: refuses an id that is already a member, otherwise
      appends it at the end. A `memberId` that does not cast to an ObjectId
      matches no member, and the push that casts it throws: the fallback
      500, with nothing written. Ids are canonical here: the source's
      membership test compares strings, so an upper-case spelling of a
      member's id would pass it and be stored a second time. */
  function AddMember(store: Store, caller: Id, param: IdParam, memberId: IdParam): (r: Reply)
    ensures AdminRejection(store, caller, param, r)
    ensures IsAdminOf(store, caller, param) && memberId.Malformed? ==> r == Broke(store)
    ensures IsAdminOf(store, caller, param) && memberId.Parsed? ==>
      var g := store[param.id];
      var m := memberId.id;
      && (m in g.members ==> r.status == 400 && r.store == store)
      && (m !in g.members ==>
            && r.status == 200 && r.body == MemberDoc(m)
            && r.store == store[param.id := g.(members := g.members + [m])])
    ensures r.status >= 400 ==> r.store == store
    ensures Valid(store) ==> Valid(r.store)
  {
    match AdminGate(store, caller, param, "Only the admin can add members")
    case Some(rejected) => rejected
    case None =>
      var g := store[param.id];
      match memberId
      case Malformed => Broke(store)
      case Parsed(m) =>
        if m in g.members then Reply(400, Message("User is already a member"), store)
        else
          var g' := g.(members := g.members + [m]);
          assert Valid(store) ==> Valid(store[param.id := g']) by {
            if Valid(store) {
              assert Distinct(g'.members) by {
                forall i, j | 0 <= i < j < |g'.members|
                  ensures g'.members[i] != g'.members[j]
                {
                  if j == |g.members| {
                    assert g'.members[i] == g.members[i];
                  }
                }
              }
              ValidAfterUpdate(store, param.id, g');
            }
          }
          Reply(200, MemberDoc(m), store[param.id := g'])
  }

  /** `removeMember`: refuses the admin's id, otherwise drops every
      occurrence of the id and reports success even if it was absent. */
  function RemoveMember(store: Store, caller: Id, param: IdParam, memberId: Id): (r: Reply)
    ensures AdminRejection(store, caller, param, r)
    ensures IsAdminOf(store, caller, param) ==>
      var g := store[param.id];
      && (memberId == g.admin ==> r.status == 400 && r.store == store)
      && (memberId != g.admin ==>
            && r.status == 200
            && r.store == store[param.id := g.(members := Without(g.members, memberId))])
    ensures r.status >= 400 ==> r.store == store
    ensures Valid(store) ==> Valid(r.store)
  {
    match AdminGate(store, caller, param, "Only the admin can remove members")
    case Some(rejected) => rejected
    case None =>
      var g := store[param.id];
      if g.admin == memberId then Reply(400, Message("Admin cannot be removed"), store)
      else
        var g' := g.(members := Without(g.members, memberId));
        assert Valid(store) ==> Valid(store[param.id := g']) by {
          if Valid(store) {
            ValidAfterUpdate(store, param.id, g');
          }
        }
        Reply(200, Message("Member removed successfully"), store[param.id := g'])
  }

  /** `addDiscussion`: a member appends one entry authored by the caller;
      the schema refuses a missing or empty text. */
  function AddDiscussion(store: Store, caller: Id, param: IdParam, text: Field<string>, now: int): (r: Reply)
    ensures param.Malformed? ==> r.status == 500 && r.store == store
    ensures param.Parsed? && param.id !in store ==> r.status == 404 && r.store == store
    ensures param.Parsed? && param.id in store ==>
      var g := store[param.id];
      && (caller !in g.members ==> r.status == 403 && r.store == store)
      && (caller in g.members && !Truthy(text) ==> r.status == 500 && r.store == store)
      && (caller in g.members && Truthy(text) ==>
            && r.status == 201
            && r.body.EntryDoc?
            && r.body.entry.user == caller && r.body.entry.text == text.value
            && r.store == store[param.id := g.(discussions := g.discussions + [r.body.entry])])
    ensures r.status >= 400 ==> r.store == store
    ensures Valid(store) ==> Valid(r.store)
  {
    match param
    case Malformed => Broke(store)
    case Parsed(id) =>
      if id !in store then Reply(404, Message("Group not found"), store)
      else
        var g := store[id];
        if caller !in g.members then Reply(403, Message("You are not a member of this group"), store)
        else if !Truthy(text) then Broke(store)
        else
          var entry := Discussion(text.value, caller, now);
          var g' := g.(discussions := g.discussions + [entry]);
          assert Valid(store) ==> Valid(store[id := g']) by {
            if Valid(store) {
              ValidAfterUpdate(store, id, g');
            }
          }
          Reply(201, EntryDoc(g'.discussions[|g'.discussions| - 1]), store[id := g'])
  }

  /** `getGroups`: the groups the caller is a member of, newest first. */
  method GetGroups(store: Store, caller: Id) returns (r: seq<(Id, Group)>)
    ensures forall i :: 0 <= i < |r| ==> r[i].0 in store && r[i].1 == store[r[i].0] && caller in r[i].1.members
    ensures forall id :: id in store && caller in store[id].members ==> (id, store[id]) in r
    ensures multiset(r) == multiset(Listing.Selected(store, (g: Group) => caller in g.members, store.Keys))
    ensures forall i, j :: 0 <= i < j < |r| ==> r[i].1.createdAt >= r[j].1.createdAt
  {
    r := Listing.NewestFirst(store, (g: Group) => caller in g.members, (g: Group) => g.createdAt);
  }

  /** One request to the group API. */
  datatype Request =
    | Create(name: Field<string>, description: Field<string>)
    | Read(param: IdParam)
    | Delete(param: IdParam)
    | UpdateDetails(param: IdParam, assignmentTitle: Field<Option<string>>, deadline: Field<Option<int>>, newDescription: Field<Option<string>>)
    | UpdateStatus(param: IdParam, assignmentStatus: string)
    | Add(param: IdParam, member: IdParam)
    | Remove(param: IdParam, memberId: Id)
    | Discuss(param: IdParam, text: Field<string>)

  function Handle(store: Store, caller: Id, req: Request, now: int): Reply
  {
    match req
    case Create(name, description) => CreateGroup(store, caller, name, description, now)
    case Read(param) => GetGroupById(store, caller, param)
    case Delete(param) => DeleteGroup(store, caller, param)
    case UpdateDetails(param, t, d, desc) => UpdateGroupDetails(store, caller, param, t, d, desc)
    case UpdateStatus(param, s) => UpdateAssignmentStatus(store, caller, param, s)
    case Add(param, m) => AddMember(store, caller, param, m)
    case Remove(param, m) => RemoveMember(store, caller, param, m)
    case Discuss(param, text) => AddDiscussion(store, caller, param, text, now)
  }

  /** Every request keeps the store valid — in particular every group's
      admin stays one of its members — and every refused request leaves the
      store as it was. */
  lemma HandleInvariant(store: Store, caller: Id, req: Request, now: int)
    requires Valid(store)
    ensures var r := Handle(store, caller, req, now);
      && Valid(r.store)
      && (r.status >= 400 ==> r.store == store)
  {
  }

  /** Whatever sequence of requests is applied, from any valid store, the
      admin of every group remains a member of it. */
  lemma {:induction false} AdminStaysMember(store: Store, callers: seq<Id>, reqs: seq<Request>, now: int, id: Id)
    requires Valid(store)
    requires |callers| == |reqs|
    ensures var s := Run(store, callers, reqs, now);
      Valid(s) && (id in s ==> s[id].admin in s[id].members)
    decreases |reqs|
  {
    if reqs != [] {
      HandleInvariant(store, callers[0], reqs[0], now);
      AdminStaysMember(Handle(store, callers[0], reqs[0], now).store, callers[1..], reqs[1..], now, id);
    }
  }

  /** The store after applying `reqs`, the i-th sent by `callers[i]`. */
  function Run(store: Store, callers: seq<Id>, reqs: seq<Request>, now: int): Store
    requires |callers| == |reqs|
    decreases |reqs|
  {
    if reqs == [] then store
    else Run(Handle(store, callers[0], reqs[0], now).store, callers[1..], reqs[1..], now)
  }

  lemma CreateAlpha(a: Id, now: int, created: Reply)
    requires created == CreateGroup(map[], a, Given("Alpha"), Undefined, now)
    ensures created.status == 201 && created.body.GroupDoc? && created.body.id == 0
    ensures created.store == map[0 := created.body.group]
    ensures created.body.group.members == [a] && created.body.group.admin == a
    ensures created.body.group.discussions == []
  {
    assert Trim("Alpha") == "Alpha" by {
      TrimFixpoint("Alpha");
    }
    assert !NameTaken(map[], "Alpha");
    assert FreshId<Group>(map[]) == 0;
  }

  lemma AddSecondMember(a: Id, b: Id, g: Group, added: Reply)
    requires a != b && g.members == [a] && g.admin == a
    requires added == AddMember(map[0 := g], a, Parsed(0), Parsed(b))
    ensures added.status == 200 && added.store == map[0 := g.(members := [a, b])]
  {
    assert [a] + [b] == [a, b];
  }

  lemma MemberPosts(b: Id, now: int, g: Group, posted: Reply)
    requires b in g.members
    requires posted == AddDiscussion(map[0 := g], b, Parsed(0), Given("hello"), now)
    ensures posted.status == 201
    ensures posted.store[0].discussions == g.discussions + [Discussion("hello", b, now)]
  {
  }

  /** User A creates group "Alpha" in an empty store; non-member B cannot
      post to it; once A adds B, B's post becomes the group's only
      discussion entry, authored by B. */
  lemma PostAfterJoin(a: Id, b: Id, now: int, created: Reply, refused: Reply, added: Reply, posted: Reply)
    requires a != b
    requires created == CreateGroup(map[], a, Given("Alpha"), Undefined, now)
    requires refused == AddDiscussion(created.store, b, Parsed(0), Given("hello"), now)
    requires added == AddMember(created.store, a, Parsed(0), Parsed(b))
    requires posted == AddDiscussion(added.store, b, Parsed(0), Given("hello"), now)
    ensures created.status == 201 && created.body.GroupDoc? && created.body.id == 0
    ensures refused.status == 403
    ensures added.status == 200
    ensures posted.status == 201
    ensures posted.store[0].discussions == [Discussion("hello", b, now)]
  {
    CreateAlpha(a, now, created);
    var g := created.body.group;
    AddSecondMember(a, b, g, added);
    MemberPosts(b, now, g.(members := [a, b]), posted);
  }
}
