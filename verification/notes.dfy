/** Personal task notes: the document shape of backend/models/Note.js and
    the handlers of backend/controllers/noteController.js.

    A note holds a title, a content, its owner and a creation time — and
    nothing else: the schema has no status field, so a status sent by the
    client is neither read by the handlers nor stored. Each handler catches
    its own exceptions (a cast error on a malformed `:id`, a failed
    validation on save) and answers 500 with the exception's message,
    writing nothing. */
module Notes {
  import opened Common
  import opened Strings
  import Listing

  datatype Note = Note(title: string, content: string, user: Id, createdAt: int)

  type Store = map<Id, Note>

  /** What the schema accepts: a non-empty trimmed title and a non-empty
      content (`required` refuses the empty string). */
  predicate WellFormed(n: Note)
  {
    n.title != "" && Trimmed(n.title) && n.content != ""
  }

  predicate Valid(store: Store)
  {
    forall id :: id in store ==> WellFormed(store[id])
  }

  datatype Body = Message(text: string) | NoteDoc(id: Id, note: Note) | ErrorMessage

  datatype Reply = Reply(status: int, body: Body, store: Store)

  /** The `catch` blocks: 500 with the exception's message, nothing written. */
  function Failed(store: Store): Reply
  {
    Reply(500, ErrorMessage, store)
  }

  /** The body of `PUT /api/notes/:id`. The client may send a `status`; it
      is part of the request but not of anything the handler reads. */
  datatype NoteUpdate = NoteUpdate(title: Field<string>, content: Field<string>, status: Field<string>)

  predicate IsOwnerOf(store: Store, caller: Id, param: IdParam)
  {
    param.Parsed? && param.id in store && store[param.id].user == caller
  }

  /** The failure behaviour shared by `getNote`, `updateNote` and
      `deleteNote`. */
  predicate OwnerRejection(store: Store, caller: Id, param: IdParam, r: Reply)
  {
    && (param.Malformed? ==> r.status == 500)
    && (param.Parsed? && param.id !in store ==> r.status == 404)
    && (param.Parsed? && param.id in store && store[param.id].user != caller ==> r.status == 401)
    && (!IsOwnerOf(store, caller, param) ==> r.store == store)
  }

  /** The `findById` + owner comparison prologue. */
  function OwnerGate(store: Store, caller: Id, param: IdParam, denied: string): (r: Option<Reply>)
    ensures r.None? <==> IsOwnerOf(store, caller, param)
    ensures r.Some? ==> OwnerRejection(store, caller, param, r.value)
  {
    match param
    case Malformed => Some(Failed(store))
    case Parsed(id) =>
      if id in store && store[id].user == caller then None
      else if id in store then Some(Reply(401, Message(denied), store))
      else Some(Reply(404, Message("Note not found"), store))
  }

  /** `createNote`: refuses a missing or empty title or content up front;
      a title of spaces passes that check but trims to '' and fails the
      schema on save. */
  function CreateNote(store: Store, caller: Id, title: Field<string>, content: Field<string>, now: int): (r: Reply)
    ensures r.status == 400 <==> !Truthy(title) || !Truthy(content)
    ensures r.status == 201 <==> Truthy(title) && Truthy(content) && Trim(title.value) != ""
    ensures r.status in {201, 400, 500}
    ensures r.status != 201 ==> r.store == store
    ensures r.status == 201 ==>
      && r.body.NoteDoc? && r.body.id !in store
      && r.store == store[r.body.id := r.body.note]
      && r.body.note.user == caller
      && r.body.note.title == Trim(title.value)
      && r.body.note.content == content.value
    ensures Valid(store) ==> Valid(r.store)
  {
    if !Truthy(title) || !Truthy(content) then Reply(400, Message("Please add a title and content"), store)
    else if Trim(title.value) == "" then Failed(store)
    else
      var id := FreshId(store);
      var n := Note(Trim(title.value), content.value, caller, now);
      Reply(201, NoteDoc(id, n), store[id := n])
  }

  /** `getNote`. */
  function GetNote(store: Store, caller: Id, param: IdParam): (r: Reply)
    ensures OwnerRejection(store, caller, param, r)
    ensures r.store == store
    ensures IsOwnerOf(store, caller, param) ==> r.status == 200 && r.body == NoteDoc(param.id, store[param.id])
  {
    match OwnerGate(store, caller, param, "Not authorized to view this note")
    case Some(rejected) => rejected
    case None => Reply(200, NoteDoc(param.id, store[param.id]), store)
  }

  /** `n'` is `n` with the update applied: title and content replaced only
      by non-empty values (the title trimmed by the schema), owner and
      creation time kept. */
  predicate Applied(n: Note, body: NoteUpdate, n': Note)
  {
    && n'.user == n.user && n'.createdAt == n.createdAt
    && (Truthy(body.title) ==> n'.title == Trim(body.title.value))
    && (!Truthy(body.title) ==> n'.title == Trim(n.title))
    && (Truthy(body.content) ==> n'.content == body.content.value)
    && (!Truthy(body.content) ==> n'.content == n.content)
  }

  /** `updateNote`: replaces title and content only with non-empty values,
      never touches the owner, and ignores every other field of the body. */
  function UpdateNote(store: Store, caller: Id, param: IdParam, body: NoteUpdate): (r: Reply)
    ensures OwnerRejection(store, caller, param, r)
    ensures IsOwnerOf(store, caller, param) ==>
      var n := store[param.id];
      var title := Trim(OrKeep(body.title, n.title));
      var content := OrKeep(body.content, n.content);
      && (title == "" || content == "" ==> r.status == 500 && r.store == store)
      && (title != "" && content != "" ==>
            && r.status == 200
            && param.id in r.store
            && r.store == store[param.id := r.store[param.id]]
            && Applied(n, body, r.store[param.id])
            && r.body == NoteDoc(param.id, r.store[param.id]))
    ensures Valid(store) ==> Valid(r.store)
  {
    match OwnerGate(store, caller, param, "Not authorized to update this note")
    case Some(rejected) => rejected
    case None =>
      var n := store[param.id];
      var n' := n.(title := Trim(OrKeep(body.title, n.title)), content := OrKeep(body.content, n.content));
      if n'.title == "" || n'.content == "" then Failed(store)
      else Reply(200, NoteDoc(param.id, n'), store[param.id := n'])
  }

  /** Whatever `status` the client puts in the body, the reply and the
      store are the same: the status is never persisted. */
  lemma UpdateIgnoresStatus(store: Store, caller: Id, param: IdParam,
                            title: Field<string>, content: Field<string>, s1: Field<string>, s2: Field<string>)
    ensures UpdateNote(store, caller, param, NoteUpdate(title, content, s1))
         == UpdateNote(store, caller, param, NoteUpdate(title, content, s2))
  {
  }

  /** `deleteNote`: the owner removes exactly that note. */
  function DeleteNote(store: Store, caller: Id, param: IdParam): (r: Reply)
    ensures OwnerRejection(store, caller, param, r)
    ensures IsOwnerOf(store, caller, param) ==>
      && r.status == 200
      && r.store.Keys == store.Keys - {param.id}
      && forall k :: k in r.store ==> r.store[k] == store[k]
    ensures Valid(store) ==> Valid(r.store)
  {
    match OwnerGate(store, caller, param, "Not authorized to delete this note")
    case Some(rejected) => rejected
    case None => Reply(200, Message("Note removed"), store - {param.id})
  }

  /** Deleting the same note twice: the second attempt finds nothing. */
  lemma DeleteTwice(store: Store, caller: Id, id: Id)
    requires id in store && store[id].user == caller
    ensures DeleteNote(DeleteNote(store, caller, Parsed(id)).store, caller, Parsed(id)).status == 404
  {
  }

  /** `getNotes`: exactly the caller's notes, newest first. */
  method GetNotes(store: Store, caller: Id) returns (r: seq<(Id, Note)>)
    ensures forall i :: 0 <= i < |r| ==> r[i].0 in store && r[i].1 == store[r[i].0] && r[i].1.user == caller
    ensures forall id :: id in store && store[id].user == caller ==> (id, store[id]) in r
    ensures multiset(r) == multiset(Listing.Selected(store, (n: Note) => n.user == caller, store.Keys))
    ensures forall i, j :: 0 <= i < j < |r| ==> r[i].1.createdAt >= r[j].1.createdAt
  {
    r := Listing.NewestFirst(store, (n: Note) => n.user == caller, (n: Note) => n.createdAt);
  }
}
