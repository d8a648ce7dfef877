/** The task board of frontend/src/dashboard/List.jsx: the notes of the
    signed-in user laid out in three status columns, and the local list
    updates the board performs around its calls to the notes API. */
module Kanban {
  import opened Common
  import Notes
  import Strings

  /** A note as the board holds it. Notes fetched from the server carry no
      status (their documents have no such field); only the board's own
      optimistic update writes one. */
  datatype Task = Task(id: Id, title: string, content: string, status: Option<string>)

  const ToDo := "To do"
  const InProgress := "In progress"
  const Done := "Done"

  /** A note document as the API returns it. */
  function FromServer(id: Id, n: Notes.Note): Task
  {
    Task(id, n.title, n.content, None)
  }

  /** `n.status === 'To do' || !n.status`. */
  predicate InToDo(t: Task)
  {
    t.status == Some(ToDo) || t.status == None || t.status == Some("")
  }

  predicate InProgressCol(t: Task)
  {
    t.status == Some(InProgress)
  }

  predicate InDone(t: Task)
  {
    t.status == Some(Done)
  }

  /** A status no column shows. */
  predicate Unplaced(t: Task)
  {
    !InToDo(t) && !InProgressCol(t) && !InDone(t)
  }

  /** The `tasks` object: one list per column, each in board order. */
  datatype Columns = Columns(toDo: seq<Task>, inProgress: seq<Task>, done: seq<Task>)

  function Layout(ts: seq<Task>): (c: Columns)
    ensures forall t :: t in c.toDo <==> t in ts && InToDo(t)
    ensures forall t :: t in c.inProgress <==> t in ts && t.status == Some(InProgress)
    ensures forall t :: t in c.done <==> t in ts && t.status == Some(Done)
  {
    Columns(Filter(InToDo, ts), Filter(InProgressCol, ts), Filter(InDone, ts))
  }

  /** No note is shown twice, and a note whose status is none of the
      board's (nor empty) is shown nowhere. */
  lemma ColumnsDisjoint(ts: seq<Task>, t: Task)
    ensures !(t in Layout(ts).toDo && t in Layout(ts).inProgress)
    ensures !(t in Layout(ts).toDo && t in Layout(ts).done)
    ensures !(t in Layout(ts).inProgress && t in Layout(ts).done)
    ensures t.status.Some? && t.status.value !in {"", ToDo, InProgress, Done} ==>
      t !in Layout(ts).toDo && t !in Layout(ts).inProgress && t !in Layout(ts).done
  {
  }

  /** Counting the cards: the three columns together with the unplaced
      notes account for every note exactly once. */
  lemma ColumnsCount(ts: seq<Task>)
    ensures |Layout(ts).toDo| + |Layout(ts).inProgress| + |Layout(ts).done| + |Filter(Unplaced, ts)| == |ts|
  {
    FilterCounts(ts);
  }

  lemma {:induction false} FilterCounts(ts: seq<Task>)
    ensures |Filter(InToDo, ts)| + |Filter(InProgressCol, ts)| + |Filter(InDone, ts)| + |Filter(Unplaced, ts)| == |ts|
  {
    if ts != [] {
      FilterCounts(ts[1..]);
      FilterCons(InToDo, ts);
      FilterCons(InProgressCol, ts);
      FilterCons(InDone, ts);
      FilterCons(Unplaced, ts);
      OneColumn(ts[0]);
    }
  }

  /** Every note is counted once: in exactly one column, or unplaced. */
  lemma OneColumn(t: Task)
    ensures (if InToDo(t) then 1 else 0) + (if InProgressCol(t) then 1 else 0)
          + (if InDone(t) then 1 else 0) + (if Unplaced(t) then 1 else 0) == 1
  {
  }

  /** The optimistic update `notes.map(t => t._id === id ? { ...t, status } : t)`. */
  function SetStatus(ts: seq<Task>, id: Id, status: string): (r: seq<Task>)
    ensures |r| == |ts|
    ensures forall i :: 0 <= i < |ts| && ts[i].id != id ==> r[i] == ts[i]
    ensures forall i :: 0 <= i < |ts| && ts[i].id == id ==>
      r[i].status == Some(status) && r[i].id == ts[i].id && r[i].title == ts[i].title && r[i].content == ts[i].content
  {
    seq(|ts|, i requires 0 <= i < |ts| => if ts[i].id == id then ts[i].(status := Some(status)) else ts[i])
  }

  /** The synchronisation after a successful PUT: the note with that id is
      replaced wholesale by the server's copy. */
  function ReplaceById(ts: seq<Task>, id: Id, updated: Task): (r: seq<Task>)
    ensures |r| == |ts|
    ensures forall i :: 0 <= i < |ts| && ts[i].id != id ==> r[i] == ts[i]
    ensures forall i :: 0 <= i < |ts| && ts[i].id == id ==> r[i] == updated
  {
    seq(|ts|, i requires 0 <= i < |ts| => if ts[i].id == id then updated else ts[i])
  }

  /** `handleStatusChange`: the optimistic update, then either the server's
      copy (`reply`) or, when the PUT fails, whatever a fresh fetch loads
      (`reload`). */
  function StatusChange(ts: seq<Task>, id: Id, status: string, reply: Option<Task>, reload: seq<Task>): (r: seq<Task>)
    ensures reply.None? ==> r == reload
    ensures reply.Some? ==> |r| == |ts| && forall i :: 0 <= i < |ts| ==> r[i] == (if ts[i].id == id then reply.value else ts[i])
  {
    var optimistic := SetStatus(ts, id, status);
    match reply
    case Some(updated) => ReplaceById(optimistic, id, updated)
    case None => reload
  }

  /** `handleDeleteNote` after the confirmation and a successful DELETE:
      exactly the notes with that id go. */
  function DeleteTask(ts: seq<Task>, id: Id): (r: seq<Task>)
    ensures forall t :: t in r <==> t in ts && t.id != id
    ensures |r| <= |ts|
  {
    Filter((t: Task) => t.id != id, ts)
  }

  /** Deleting keeps the remaining notes in their order: it distributes
      over any split of the board, and removes nothing when no note has
      the id. */
  lemma DeleteKeepsOrder(a: seq<Task>, b: seq<Task>, id: Id)
    ensures DeleteTask(a + b, id) == DeleteTask(a, id) + DeleteTask(b, id)
    ensures (forall i :: 0 <= i < |a| ==> a[i].id != id) ==> DeleteTask(a, id) == a
  {
    FilterAppend((t: Task) => t.id != id, a, b);
    if forall i :: 0 <= i < |a| ==> a[i].id != id {
      FilterKeepsAll((t: Task) => t.id != id, a);
    }
  }

  /** The form of the "Add Task" modal. */
  datatype Draft = Draft(title: string, content: string, status: string)

  /** `handleAddSubmit`: an empty title or content is refused before any
      request; otherwise the created note (`created`, absent when the POST
      fails) is appended at the end. */
  function AddSubmit(ts: seq<Task>, draft: Draft, created: Option<Task>): (r: seq<Task>)
    ensures draft.title == "" || draft.content == "" ==> r == ts
    ensures draft.title != "" && draft.content != "" && created.Some? ==>
      |r| == |ts| + 1 && r[..|ts|] == ts && r[|ts|] == created.value
    ensures created.None? ==> r == ts
  {
    if draft.title == "" || draft.content == "" then ts
    else match created
      case None => ts
      case Some(t) => ts + [t]
  }

  /** Adding a task and then deleting it restores the board, when its id
      was new to the board. */
  lemma AddThenDelete(ts: seq<Task>, draft: Draft, t: Task)
    requires draft.title != "" && draft.content != ""
    requires forall i :: 0 <= i < |ts| ==> ts[i].id != t.id
    ensures DeleteTask(AddSubmit(ts, draft, Some(t)), t.id) == ts
  {
    DeleteKeepsOrder(ts, [t], t.id);
    assert Filter((x: Task) => x.id != t.id, [t]) == [];
  }

  /** The board's status never survives the round trip to the server.
      Moving an owned note to any column sends `{ status }`; the server
      answers with the note as stored, which has no status, and the
      synchronisation puts that copy in place, so the card lands back in
      'To do' while the stored note is unchanged. */
  lemma StatusChangeLandsInToDo(store: Notes.Store, caller: Id, id: Id, ts: seq<Task>, status: string, reload: seq<Task>)
    requires id in store && store[id].user == caller && Notes.WellFormed(store[id])
    ensures
      var reply := Notes.UpdateNote(store, caller, Parsed(id), Notes.NoteUpdate(Undefined, Undefined, Given(status)));
      && reply.status == 200
      && reply.store == store
      && reply.body == Notes.NoteDoc(id, store[id])
      && var board := StatusChange(ts, id, status, Some(FromServer(id, reply.body.note)), reload);
      && (forall t :: t in board && t.id == id ==> t in Layout(board).toDo && t !in Layout(board).done)
  {
    StatusOnlyUpdate(store, caller, id, status);
    SyncedCardInToDo(ts, id, status, FromServer(id, store[id]), reload);
  }

  /** A body carrying only a status saves the note as it was. */
  lemma StatusOnlyUpdate(store: Notes.Store, caller: Id, id: Id, status: string)
    requires id in store && store[id].user == caller && Notes.WellFormed(store[id])
    ensures
      var reply := Notes.UpdateNote(store, caller, Parsed(id), Notes.NoteUpdate(Undefined, Undefined, Given(status)));
      reply.status == 200 && reply.store == store && reply.body == Notes.NoteDoc(id, store[id])
  {
    Strings.TrimFixpoint(store[id].title);
    var reply := Notes.UpdateNote(store, caller, Parsed(id), Notes.NoteUpdate(Undefined, Undefined, Given(status)));
    assert reply.store[id] == store[id];
  }

  /** A status-less copy synchronised into the board shows in 'To do'. */
  lemma SyncedCardInToDo(ts: seq<Task>, id: Id, status: string, synced: Task, reload: seq<Task>)
    requires synced.id == id && synced.status == None
    ensures var board := StatusChange(ts, id, status, Some(synced), reload);
      forall t :: t in board && t.id == id ==> t in Layout(board).toDo && t !in Layout(board).done
  {
    var board := StatusChange(ts, id, status, Some(synced), reload);
    forall t | t in board && t.id == id
      ensures t == synced
    {
      var i :| 0 <= i < |board| && board[i] == t;
    }
  }
}
