# AcademicPro — a Dafny model of the collaboration back end and its dashboard helpers

AcademicPro is a student workspace. It has an Express/Mongoose back end that keeps four document collections: users, personal task notes, a shared course catalogue, and collaboration groups with members, an assignment status and a discussion log. A React dashboard lists, searches and sorts those documents.

This project models that core in Dafny as values and pure functions:

- **Stores.** A collection is a `map<Id, Record>`.
- **Request handlers.** Every handler is a total function `(store, caller, request) -> Reply(status, body, store')`.
  - The authenticated caller is a parameter.
  - The clock is a parameter (`now`).
  - A route's `:id` is either a parsed id or `Malformed`, which is the cast error Mongoose raises.
  - A request-body field is either `Undefined` or `Given(value)`. This is what the `x || old` and `x !== undefined` merges need.
- **Schema rules.** What Mongoose enforces on `save` is a well-formedness predicate plus a uniqueness predicate per collection. These are `trim` before `required`, the unique indexes, the `projectStatus` enum, the e-mail pattern and the password minimum length, which JavaScript counts in UTF-16 code units.
  - Every mutating handler is proved to preserve them.
  - Every refused request is proved to leave the store as it was.
- **Client helpers.** The helpers of the dashboard pages are functions on sequences and strings:
  - the Kanban columns and list updates;
  - the group and course search and sort;
  - the sidebar's active link;
  - the page title.

Modules:

| module | models |
|---|---|
| `Common` | optional request fields, route ids, fresh ids, filtering |
| `Strings` | `trim`, `startsWith`, `includes`, ASCII case mapping, `split`/`join`, code-point order |
| `Encoding` | the UTF-8 bytes bcrypt hashes and the UTF-16 code units JavaScript's `length` counts |
| `Sorting`, `Listing` | a stable sort, and "the records satisfying a test, newest first" |
| `Groups` | backend/controllers/groupController.js with backend/models/Group.js |
| `Notes` | backend/controllers/noteController.js with backend/models/Note.js |
| `Courses` | backend/controllers/courseController.js with backend/models/Course.js |
| `Email` | the e-mail pattern of backend/models/User.js |
| `Users` | backend/controllers/userController.js with backend/models/User.js |
| `Kanban` | the task board of frontend/src/dashboard/List.jsx |
| `Search` | the list pages frontend/src/dashboard/MyGroups.jsx and frontend/src/dashboard/Courses.jsx |
| `Navigation` | frontend/src/components/Sidebar.jsx and the title logic of frontend/src/pages/Dashboard.jsx |

## Model

| member | source | states |
|---|---|---|
| Groups.ParseStatus | backend/models/Group.js:62-66 | a status string is accepted exactly when it is one of 'To do', 'In progress', 'Done', and it then denotes the status of that name |
| Groups.ParseStatusName | backend/models/Group.js:62-66 | every enum value is accepted back under its own name (name and parse are inverse) |
| Groups.ValidAfterInsert | backend/models/Group.js:28-42 | adding a well-formed group under a fresh id with an unused name keeps every group well formed and names unique |
| Groups.ValidAfterUpdate | backend/models/Group.js:28-42 | replacing a group by a well-formed one with the same name keeps the store valid |
| Groups.CheckAdmin | backend/controllers/groupController.js:8-12 | the admin test holds exactly when the admin's id is the caller's, whether `admin` is a bare id or a populated user; the handlers only ever pass the bare id, so the populated arm is the helper's unreached second branch |
| Groups.AdminGate | backend/controllers/groupController.js:65-79 | the shared prologue lets a request through iff the caller administers an existing group; otherwise a malformed id gives 500, a missing group 404 and a non-admin 403, and the store is untouched |
| Groups.CreateGroup | backend/controllers/groupController.js:19-30 | 201 iff a name is given whose trim is non-empty and not already used; the new group is stored under a fresh id with the trimmed name, the caller as admin and sole member, an empty title, no deadline, status 'To do' and no discussions; any other request is 500 and writes nothing; validity is preserved |
| Groups.GetGroupById | backend/controllers/groupController.js:46-60 | members get the group (200), an existing group's non-members get 403, an absent group 404; nothing changes |
| Groups.DeleteGroup | backend/controllers/groupController.js:65-79 | the admin removes exactly that group and every other group is untouched; non-admins get 403 and absent groups 404 with nothing changed |
| Groups.DeleteTwice | backend/controllers/groupController.js:74-78 | deleting the same group a second time answers 404 |
| Groups.UpdateGroupDetails | backend/controllers/groupController.js:86-113 | each of assignmentTitle, deadline and description is overwritten exactly when the body defines it, a JSON `null` included; name, admin, members, status, discussions and every other group are unchanged; the reply echoes the three fields |
| Groups.NullClearsDetails | backend/controllers/groupController.js:97-99 | a `null` assignment title or description clears the field, `''` stores an empty string, and an absent one keeps the old value |
| Groups.UpdateAssignmentStatus | backend/controllers/groupController.js:119-136 | the admin sets an enum value and the stored status then has the sent name; any other string fails the save with 500 and leaves the store unchanged |
| Groups.AddMember | backend/controllers/groupController.js:143-167 | after the admin gate, a `memberId` that does not cast to an ObjectId fails the push with 500 and writes nothing; an id already in the member list is refused with 400 and nothing changes; otherwise it is appended at the end and the reply is that user's document; members stay duplicate-free for ids in canonical form (see "## Left out") |
| Groups.RemoveMember | backend/controllers/groupController.js:172-194 | the admin's own id is refused with 400; any other id has every occurrence dropped (success even if absent), so the admin stays a member |
| Groups.AddDiscussion | backend/controllers/groupController.js:201-225 | a non-member gets 403 and the log is unchanged; a missing or empty text fails with 500; a member's post appends exactly one entry authored by the caller with that text, and that entry is returned |
| Groups.GetGroups | backend/controllers/groupController.js:35-41 | exactly the groups the caller belongs to, each once, newest first |
| Groups.HandleInvariant | backend/controllers/groupController.js:19-225 | every group request keeps the store valid (admin a member, members distinct as canonical ids, names unique and trimmed, texts non-empty), and every refused request leaves it unchanged |
| Groups.AdminStaysMember | backend/controllers/groupController.js:182-185 | after any sequence of requests by any callers, every group's admin is still one of its members |
| Groups.PostAfterJoin | backend/controllers/groupController.js:153-159 | in a new group 'Alpha', an outsider's post is refused with 403; once the admin adds that user, the same post is accepted and becomes the only entry of the log |
| Notes.OwnerGate | backend/controllers/noteController.js:18-32 | a note request proceeds iff the caller owns an existing note; a malformed id gives 500, a missing note 404, another user's note 401, and the store is untouched |
| Notes.CreateNote | backend/controllers/noteController.js:37-55 | 400 iff title or content is missing or empty; 201 iff both are present and the title does not trim to nothing; the stored note belongs to the caller with the trimmed title; a title of spaces fails on save with 500; refusals write nothing |
| Notes.GetNote | backend/controllers/noteController.js:18-32 | the owner gets the note; others get the gate's refusal; nothing changes |
| Notes.UpdateNote | backend/controllers/noteController.js:60-80 | title and content are replaced only by non-empty values (the title trimmed); owner, creation time and every other note are unchanged; a merge the schema refuses is 500 with nothing written |
| Notes.UpdateIgnoresStatus | backend/models/Note.js:4-23 | the status a client sends has no effect on the reply or on the stored note, because the schema has no such field and the handler never reads it |
| Notes.DeleteNote | backend/controllers/noteController.js:85-100 | the owner removes exactly that note; other callers and absent notes are refused with nothing changed |
| Notes.DeleteTwice | backend/controllers/noteController.js:89-96 | deleting the same note twice answers 404 the second time |
| Notes.GetNotes | backend/controllers/noteController.js:6-13 | exactly the caller's notes, each once, newest first |
| Courses.ValidAfterPut | backend/models/Course.js:5-23 | storing a well-formed course whose code no other course holds keeps codes unique |
| Courses.CreateCourse | backend/controllers/courseController.js:43-71 | 400 iff title or code is missing or empty or the code is already used; 201 iff additionally the title does not trim to nothing; the new course records the trimmed title, the code, the optional description and the caller as creator |
| Courses.GetCourse | backend/controllers/courseController.js:21-38 | 200 with the course iff the id parses and names a course; a malformed id and a missing course both give 404 |
| Courses.CreatorGate | backend/controllers/courseController.js:80-89 | edits proceed iff the caller is the recorded creator; missing course 404, other creator 401, no creator recorded 500, malformed id 500, store untouched |
| Courses.UpdateCourse | backend/controllers/courseController.js:76-106 | title and code change only to non-empty values, the description whenever it is sent (even '', and `null`, which clears it); a code held by another course or a blank title fails the save with 500; creator, creation time and other courses are unchanged; codes stay unique |
| Courses.NullClearsDescription | backend/controllers/courseController.js:92-94 | a `null` description clears the stored one while the absent title and code keep theirs, and nothing else changes |
| Courses.DeleteCourse | backend/controllers/courseController.js:111-130 | the creator removes exactly that course; everyone else is refused with nothing changed |
| Courses.OnlyCreatorEdits | backend/controllers/courseController.js:87 | a caller who is not the recorded creator can neither edit nor delete the course, whatever the body |
| Courses.DuplicateCodeRefused | backend/controllers/courseController.js:51-54 | once a course is created, creating another with the same code is refused with 400 |
| Courses.GetCourses | backend/controllers/courseController.js:7-16 | every course, each once, newest first |
| Email.IsEmailIffRegex | backend/models/User.js:21 | the first-order predicate `IsEmail` accepts exactly the strings on which the unanchored `/.+@.+\..+/` test succeeds |
| Email.SingleLineEmail | backend/models/User.js:21 | on a string without line breaks the pattern holds iff an '@' at index i ≥ 1 is followed by a '.' at an index j with i+2 ≤ j ≤ length−2 |
| Email.Examples | backend/models/User.js:21 | 'a@b.co' is accepted and 'a@bco' is refused |
| Users.ValidAfterPut | backend/models/User.js:17-20 | storing a well-formed user whose e-mail no other user holds keeps e-mails unique |
| Users.RegisterUser | backend/controllers/userController.js:17-60 | a confirmation mismatch is 400 before anything else; a used e-mail is 400 'User already exists'; 201 iff names trim non-empty, the e-mail matches and the password is at least 6 UTF-16 code units long; the new user has trimmed names, a credential of the password, the defaults '' / '/images/default_avatar.png' / '', and the reply's username is first + ' ' + last |
| Users.AuthUser | backend/controllers/userController.js:65-81 | 200 iff some user has that e-mail and a credential made from that password; an unknown e-mail and a wrong password get the identical 401 |
| Users.SignupThenLogin | backend/controllers/userController.js:40-50 | logging in with the address and password just registered returns the same session as the sign-up |
| Users.GetUserProfile | backend/controllers/userController.js:86-102 | the caller's own profile, with username first + ' ' + last, or 404 when the caller has no account |
| Users.UpdateUserProfile | backend/controllers/userController.js:107-140 | names and e-mail change only to non-empty values; a new password needs a matching confirmation (400 otherwise) and is stored only then; an absent password keeps the old credential; a save the schema or the unique index refuses writes nothing; other users are untouched |
| Users.Save | backend/controllers/userController.js:126-136 | the save succeeds exactly when the validators (a new password of at least 6 UTF-16 code units) and the unique index accept the merged user, and the reply carries that user's session |
| Users.NewPasswordLogsIn | backend/controllers/userController.js:118-124 | after a successful password change the new password logs in; an earlier password logs in exactly when bcrypt reads the same 72-byte key from it, so a different NUL-free one within 72 bytes gets 401 |
| Users.OnlyPasswordLogsIn | backend/controllers/userController.js:73-77 | with unique e-mails an account opens with the password its credential was made from, and with exactly the other passwords that share its bcrypt key; every other password gets 401 |
| Users.BcryptKey | backend/models/User.js:3 | bcrypt reads exactly 72 key bytes, and as far as the password reaches they are its UTF-8 bytes followed by a NUL |
| Users.LongKeyIsPrefix | backend/models/User.js:3 | a password of 72 UTF-8 bytes or more is keyed by its first 72 bytes |
| Users.ShortKeyDistinct | backend/models/User.js:3 | two NUL-free passwords within 72 UTF-8 bytes share a key exactly when they are equal |
| Users.LongPasswordsCollide | backend/models/User.js:3 | 73 'a's and 72 'a's followed by 'b' are different passwords with the same key |
| Users.EmojiPasswordAccepted | backend/models/User.js:26 | a password of three emoji passes the six-character minimum, because each counts as two code units |
| Encoding.DecodeUtf8 | backend/models/User.js:3 | decoding the UTF-8 bytes of a string gives back its scalar values |
| Encoding.Utf8Injective | backend/models/User.js:3 | two strings have the same UTF-8 bytes exactly when they are equal |
| Encoding.Utf16LengthCount | backend/models/User.js:26 | JavaScript's length is the number of characters plus the number outside the Basic Multilingual Plane, between one and two per character, and equals the character count exactly when none is astral |
| Encoding.EmojiLength | backend/models/User.js:26 | three emoji are three characters and six code units |
| Kanban.Layout | frontend/src/dashboard/List.jsx:202-206 | 'To do' holds the notes whose status is 'To do', missing or empty; 'In progress' and 'Done' hold exact matches |
| Kanban.ColumnsDisjoint | frontend/src/dashboard/List.jsx:202-206 | no note is in two columns, and a note with any other status is in none |
| Kanban.ColumnsCount | frontend/src/dashboard/List.jsx:202-206 | the three columns and the unplaced notes together count every note exactly once |
| Kanban.SetStatus | frontend/src/dashboard/List.jsx:178 | the optimistic update changes only the status of the notes with that id |
| Kanban.ReplaceById | frontend/src/dashboard/List.jsx:190-192 | the server's copy replaces the notes with that id wholesale; every other note is untouched |
| Kanban.StatusChange | frontend/src/dashboard/List.jsx:176-199 | after a successful PUT the board is the old board with the server's note in place; after a failed one it is whatever the reload fetched |
| Kanban.DeleteTask | frontend/src/dashboard/List.jsx:168-173 | exactly the notes with the id disappear |
| Kanban.DeleteKeepsOrder | frontend/src/dashboard/List.jsx:172 | deletion keeps the remaining notes in order and removes nothing when no note has the id |
| Kanban.AddSubmit | frontend/src/dashboard/List.jsx:150-165 | an empty title or content is refused locally; a created note is appended at the end; a failed POST changes nothing |
| Kanban.AddThenDelete | frontend/src/dashboard/List.jsx:150-173 | adding a task with an id new to the board and then deleting that id restores the board |
| Kanban.StatusChangeLandsInToDo | frontend/src/dashboard/List.jsx:176-199 | moving an owned note to any column answers 200 with the stored note unchanged, and the synchronised card lands back in 'To do' (never in 'Done') |
| Search.FilterOrThrow | frontend/src/dashboard/MyGroups.jsx:116-119 | a filter whose test may throw fails iff some element's test throws, and otherwise keeps exactly the elements that pass, in their order and with their repeats |
| Search.SearchGroups | frontend/src/dashboard/MyGroups.jsx:113-120 | an empty term keeps every group; otherwise the kept groups are exactly those whose lower-cased name or description contains the lower-cased term, in list order, and the search fails iff some group misses on its name and has no description |
| Search.SortGroups | frontend/src/dashboard/MyGroups.jsx:122-130 | 'Name' sorts ascending by name, 'Latest' newest first, any other choice keeps the order; always a permutation |
| Search.SortGroupsStable | frontend/src/dashboard/MyGroups.jsx:122-130 | groups with equal names (under 'Name') or equal creation times (under 'Latest') keep their list order |
| Search.FilteredGroups | frontend/src/dashboard/MyGroups.jsx:110-134 | the search then the sort, working on a copy: the result is a sub-multiset of the groups with the search's membership and the sort's order |
| Search.ByNameIsPreorder | frontend/src/dashboard/MyGroups.jsx:125 | the name comparator is total and transitive, so sorting by it is well defined |
| Search.AvatarRow | frontend/src/dashboard/MyGroups.jsx:38-46 | one placeholder per member up to three, then exactly three; a '+k' badge exactly when there are more than three members, with k the members beyond three |
| Search.AvatarRowGrows | frontend/src/dashboard/MyGroups.jsx:38-46 | one more member adds a placeholder below three and otherwise raises the badge by one |
| Search.AfterCreateGroup | frontend/src/dashboard/MyGroups.jsx:138-158 | an empty name does nothing; a created group is appended at the end; a failed POST changes nothing |
| Search.AfterDeleteGroup | frontend/src/dashboard/MyGroups.jsx:161-170 | exactly the groups with that id disappear |
| Search.DeleteGroupKeepsOrder | frontend/src/dashboard/MyGroups.jsx:166 | deletion keeps the remaining groups in order and removes nothing when no group has the id |
| Search.CreateThenDeleteGroup | frontend/src/dashboard/MyGroups.jsx:148 | creating a group with a new id and deleting it restores the list |
| Search.SearchCourses | frontend/src/dashboard/Courses.jsx:86-93 | an empty term keeps every course; otherwise exactly those whose lower-cased title, description or code contains the term, in list order; the search fails iff some course misses on its title and has no description |
| Search.SortCourses | frontend/src/dashboard/Courses.jsx:95-98 | 'Title' sorts ascending by title, every other choice newest first; always a permutation |
| Search.SortCoursesStable | frontend/src/dashboard/Courses.jsx:95-98 | courses with equal titles (under 'Title') or equal creation times (otherwise) keep their list order |
| Search.FilteredCourses | frontend/src/dashboard/Courses.jsx:83-101 | the search then the sort, on a copy: a sub-multiset of the courses with the search's membership and the sort's order |
| Search.ByTitleIsPreorder | frontend/src/dashboard/Courses.jsx:96 | the title comparator is total and transitive |
| Search.CodeHitStillThrows | frontend/src/dashboard/Courses.jsx:88-92 | a course whose code matches but which has no description makes the search fail, because the description is examined first |
| Search.AfterCreateCourse | frontend/src/dashboard/Courses.jsx:103-114 | a created course is appended at the end; a failed POST changes nothing |
| Search.AfterDeleteCourse | frontend/src/dashboard/Courses.jsx:116-125 | exactly the course with that id disappears |
| Search.DeleteCourseKeepsOrder | frontend/src/dashboard/Courses.jsx:120 | deletion keeps the remaining courses in order and removes nothing when no course has the id |
| Search.CreateThenDeleteCourse | frontend/src/dashboard/Courses.jsx:107-120 | creating a course with a new id and deleting it restores the list |
| Navigation.SubRouteIff | frontend/src/components/Sidebar.jsx:5-24 | a sub-route is active iff the path starts with '/dashboard/list', '/dashboard/my-groups', '/dashboard/courses' or '/dashboard/profile' |
| Navigation.IsActive | frontend/src/components/Sidebar.jsx:62-69 | the Dashboard link is active iff the path is exactly '/dashboard' or '/dashboard/'; every other link iff the path starts with its own |
| Navigation.SidebarActive | frontend/src/components/Sidebar.jsx:39-69 | the three successive assignments leave exactly the value of the last block |
| Navigation.NeverBothActive | frontend/src/components/Sidebar.jsx:63-65 | the Dashboard link and a sub-page link are never active together |
| Navigation.SegmentsNonEmpty | frontend/src/pages/Dashboard.jsx:8 | the segments are exactly the non-empty pieces of the path between slashes, none containing a slash |
| Navigation.SegmentsConcat | frontend/src/pages/Dashboard.jsx:8 | the segments of a + '/' + b are those of a followed by those of b, in order |
| Navigation.SegmentsOfWord | frontend/src/pages/Dashboard.jsx:8 | a slash-free word is one segment, or none when empty |
| Navigation.CurrentPage | frontend/src/pages/Dashboard.jsx:9 | the page is the second segment when there are at least two, and 'Dashboard' otherwise |
| Navigation.CurrentPageShape | frontend/src/pages/Dashboard.jsx:8-9 | on '/w1/w2', and on any path below it, the page is w2 |
| Navigation.CurrentPageFallback | frontend/src/pages/Dashboard.jsx:8-9 | on '/w' and '/w/' the page falls back to 'Dashboard' |
| Navigation.SubPageSegment | frontend/src/pages/Dashboard.jsx:9 | on '/dashboard/' + w the current page is w |
| Navigation.Capitalize | frontend/src/pages/Dashboard.jsx:13 | the first character is upper-cased and the rest kept; the empty word stays empty |
| Navigation.FormatTitle | frontend/src/pages/Dashboard.jsx:12-14 | the title contains no '-' |
| Navigation.FormatTitleWords | frontend/src/pages/Dashboard.jsx:13 | for a path without spaces the title splits back into the capitalised pieces, one word per hyphen-separated piece |
| Navigation.TwoWordTitle | frontend/src/pages/Dashboard.jsx:13 | 'a-b' becomes the two capitalised words joined by one space |
| Strings.Trim | backend/models/Note.js:5-9 | the trim is the infix left after cutting leading and trailing white space, and neither starts nor ends with white space |
| Strings.TrimFixpoint | backend/models/Note.js:8 | a string is unchanged by the trim setter exactly when it neither starts nor ends with white space |
| Strings.TrimIdempotent | backend/models/Note.js:8 | trimming twice is trimming once, so a stored title survives re-saving unchanged |
| Strings.TrimEmptyIffBlank | backend/models/Note.js:5-9 | a value trims to '' (and so fails `required`) exactly when it is all white space |
| Strings.LowerIdempotent | frontend/src/dashboard/MyGroups.jsx:115-118 | lower-casing twice is lower-casing once |
| Strings.Split | frontend/src/pages/Dashboard.jsx:8 | one more piece than separators, and no piece contains the separator |
| Strings.JoinSplit | frontend/src/pages/Dashboard.jsx:13 | joining the pieces of a split with the same separator restores the string |
| Strings.SplitJoin | frontend/src/pages/Dashboard.jsx:13 | splitting a join of separator-free pieces gives the pieces back |
| Strings.SplitConcat | frontend/src/pages/Dashboard.jsx:8 | the pieces of a + sep + b are those of a followed by those of b |
| Strings.LexTotal | frontend/src/dashboard/MyGroups.jsx:125 | any two strings are comparable under the order standing in for `localeCompare` |
| Strings.LexTrans | frontend/src/dashboard/MyGroups.jsx:125 | that order is transitive |
| Sorting.SortSorted | frontend/src/dashboard/Courses.jsx:96-98 | sorting with a total preorder yields a sorted permutation of the input |
| Sorting.SortStable | frontend/src/dashboard/Courses.jsx:96-98 | the sort is stable: the elements tied with any value come out in the order they went in |
| Listing.NewestFirst | backend/controllers/noteController.js:8 | `find(filter).sort({ createdAt: -1 })`: exactly the records passing the filter, each once, in non-increasing creation time |

## Left out

- Express wiring is not modelled. This covers the route files, CORS and configuration. The `protect` middleware is not part of this model. The caller's id is a parameter and is assumed to come from a valid token.
- From backend/server.js only the fallback error handler is kept. A thrown error in a group handler is modelled as a 500 with nothing written.
- Mongoose and MongoDB I/O are replaced by maps, explicit validity predicates and explicit uniqueness checks.
  - Ids are naturals. A new id is the least unused one.
  - ObjectId casting is the `Malformed` id.
  - `populate` is left out: replies carry ids rather than user documents, and dangling member references are kept.
  - The `_id` and `updatedAt` Mongoose gives an embedded discussion entry are left out; its `createdAt` is kept.
- Groups.AddMember, Groups.HandleInvariant: string ids that alias the same ObjectId are not modelled, so members are proved distinct only for ids in canonical form. The source admits such a duplicate. The membership test at backend/controllers/groupController.js:153 compares strings against the lower-case hex `toString` produces, while the push at line 158 casts any 24-digit hex string, upper case included. So an admin who sends an existing member's id in upper case gets 200 and the member is stored twice.
- Concurrency is not modelled, including the lost-update window between `findById` and `save`. Every request is atomic.
- Password hashing is modelled by the key bytes bcrypt reads; token signing is opaque.
  - The pre-save hook and `matchPassword` are elided at backend/models/User.js:49. They are taken to be bcryptjs's `hash` and `compare`, the library imported at backend/models/User.js:3.
  - bcrypt's random salt, its cost factor and the Blowfish rounds are abstract. A credential keeps the 72 key bytes, is built only by `Users.Hash` and is checked only by `Users.Matches`.
  - `generateToken` is not part of this model; a token records only its user.
- Users.OnlyPasswordLogsIn, Users.NewPasswordLogsIn: two different 72-byte keys are taken to give different hashes, so cryptographic collisions are not modelled. The corollary that a different password is refused is stated for NUL-free passwords within 72 bytes, where keys tell passwords apart.
- A JavaScript string holding an unpaired surrogate cannot be written as a Dafny string, whose characters are Unicode scalar values, so such passwords are not modelled.
- Groups.AddMember: a request body without `memberId` is not modelled; `memberId` is a parsed or malformed id.
- The lookup route `getUserByEmail` is named in the user routes but absent from the controller, so it is not modelled.
- The dead branch at backend/controllers/userController.js:51-53 is not modelled. `User.create` either returns a user or throws, so that branch never runs.
- Users.AuthUser: requires `EmailsUnique`. `findOne({ email })` returns one arbitrary match, and only the unique index makes that match the user. Every store the handlers produce satisfies this requirement.
- Users.UpdateUserProfile: a save the validators or the unique index reject is reported as status 500 with body `Unhandled`, and nothing is written. In the source the handler has no `catch`, so the promise is rejected and Express 4 sends no response at all.
- Users.RegisterUser: the fields of the sign-up and log-in bodies are taken as present strings. A body that omits them is not modelled, nor is Mongoose's casting of an absent query field.
- Groups.UpdateAssignmentStatus: `assignmentStatus` is a present string. An `undefined` or `null` status, which the enum validator lets through, is not modelled.
- Groups.UpdateGroupDetails, Courses.UpdateCourse: a body field is a string, `null` or absent. Mongoose's casting of other JSON values (numbers, booleans) to strings is not modelled.
- Groups.UpdateGroupDetails: the deadline is an optional integer. Casting a date string to a `Date`, and the failure on an invalid date, are not modelled.
- Dates are integers: `createdAt` is the `now` parameter of the creating request. `new Date(b.createdAt) - new Date(a.createdAt)` becomes integer comparison.
- Search.ByName, Search.ByTitle: `localeCompare` is replaced by code-point lexicographic order. Any total preorder would do for the sort contracts.
- Strings.Lower, Navigation.Capitalize: `toLowerCase` and `toUpperCase` are modelled on ASCII letters only. Unicode case mapping is not modelled.
- React rendering, modals, alerts, confirmation dialogs, loading flags and navigation calls are left out. A declined `window.confirm` leaves the list unchanged, and the model treats it as no call.
- Kanban.DeleteTask, Search.AfterDeleteGroup, Search.AfterDeleteCourse: only a DELETE the server accepts is modelled. A failed one leaves the list unchanged: frontend/src/dashboard/List.jsx:171 throws before the update, and frontend/src/dashboard/MyGroups.jsx:164-169 and frontend/src/dashboard/Courses.jsx:118-124 catch the error and only alert.
- The list reload a failed status change triggers is modelled as a parameter (the fetched list). Fetch failures are not modelled.
- The initials on task cards are left out.
- The `pages/` copies of List, MyGroups, DashboardSummary and Courses are not modelled, because they are not routed.
- The floating-point percentages of the dashboard summary, and every other page outside the list pages, sidebar and title, are not part of this model.
