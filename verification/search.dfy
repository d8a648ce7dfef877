/** The list pages of the groups and courses dashboards
    (frontend/src/dashboard/MyGroups.jsx and
    frontend/src/dashboard/Courses.jsx): search, sort, the member-avatar
    row of a group card, and the local list updates after a create or a
    delete.

    The search calls `toLowerCase()` on the description of every item whose
    name does not already match; a missing description makes that call
    throw, and the whole list fails to render. Results are therefore
    `Option`s, `None` standing for the thrown error. */
module Search {
  import opened Common
  import opened Strings
  import opened Sorting

  /** A group as the groups page holds it. */
  datatype GroupCard = GroupCard(id: Id, name: string, description: Option<string>, members: seq<Id>, createdAt: int)

  /** A course as the courses page holds it. */
  datatype CourseCard = CourseCard(id: Id, title: string, code: string, description: Option<string>, createdAt: int)

  /** The test throws on some element of `s`. */
  predicate Throws<T>(test: T -> Option<bool>, s: seq<T>)
  {
    exists i :: 0 <= i < |s| && test(s[i]).None?
  }

  lemma ThrowsCons<T>(test: T -> Option<bool>, s: seq<T>)
    requires s != []
    ensures Throws(test, s) <==> test(s[0]).None? || Throws(test, s[1..])
  {
    if Throws(test, s[1..]) {
      var i :| 0 <= i < |s[1..]| && test(s[1..][i]).None?;
      assert s[i + 1] == s[1..][i];
    }
    if Throws(test, s) && test(s[0]).Some? {
      var i :| 0 <= i < |s| && test(s[i]).None?;
      assert s[1..][i - 1] == s[i];
    }
  }

  /** The elements a non-throwing test keeps. */
  function Passes<T>(test: T -> Option<bool>): T -> bool
  {
    x => test(x) == Some(true)
  }

  /** `Array.prototype.filter` with a test that may throw: the first
      throwing element aborts the whole filter; otherwise the passing
      elements are kept in order, with their repeats. */
  function FilterOrThrow<T(!new)>(test: T -> Option<bool>, s: seq<T>): (r: Option<seq<T>>)
    ensures r.None? <==> Throws(test, s)
    ensures r.Some? ==> forall x :: x in r.value <==> x in s && test(x) == Some(true)
    ensures r.Some? ==> multiset(r.value) <= multiset(s)
    ensures r.Some? ==> r.value == Filter(Passes(test), s)
  {
    if s == [] then Some([])
    else
      ThrowsCons(test, s);
      match test(s[0])
      case None => None
      case Some(keep) =>
        match FilterOrThrow(test, s[1..])
        case None => None
        case Some(rest) =>
          assert s == [s[0]] + s[1..];
          FilterStep(Passes(test), s);
          Some(if keep then [s[0]] + rest else rest)
  }

  lemma FilterStep<T(!new)>(p: T -> bool, s: seq<T>)
    requires s != []
    ensures Filter(p, s) == (if p(s[0]) then [s[0]] + Filter(p, s[1..]) else Filter(p, s[1..]))
  {
  }

  /** The search term occurs, case-insensitively, in `text`. */
  predicate Hit(text: string, term: string)
  {
    Contains(Lower(text), Lower(term))
  }

  /** The group test of the search: the name, or failing that the
      description (which throws when missing). */
  function GroupTest(term: string): GroupCard -> Option<bool>
  {
    (g: GroupCard) =>
      if Hit(g.name, term) then Some(true)
      else if g.description.None? then None
      else Some(Hit(g.description.value, term))
  }

  /** A group the search keeps: its name or its description contains the
      term. */
  predicate GroupMatches(g: GroupCard, term: string)
  {
    Hit(g.name, term) || (g.description.Some? && Hit(g.description.value, term))
  }

  /** `a.name.localeCompare(b.name)`, ascending. */
  function ByName(): (GroupCard, GroupCard) -> bool
  {
    (a: GroupCard, b: GroupCard) => LexLe(a.name, b.name)
  }

  /** `new Date(b.createdAt) - new Date(a.createdAt)`: latest first. */
  function ByLatest(): (GroupCard, GroupCard) -> bool
  {
    (a: GroupCard, b: GroupCard) => a.createdAt >= b.createdAt
  }

  lemma ByNameIsPreorder()
    ensures TotalPreorder(ByName())
  {
    forall a: GroupCard, b: GroupCard
      ensures ByName()(a, b) || ByName()(b, a)
    {
      LexTotal(a.name, b.name);
    }
    forall a: GroupCard, b: GroupCard, c: GroupCard | ByName()(a, b) && ByName()(b, c)
      ensures ByName()(a, c)
    {
      LexTrans(a.name, b.name, c.name);
    }
  }

  /** The filtering half of `filteredGroups`. */
  function SearchGroups(groups: seq<GroupCard>, searchTerm: string): (r: Option<seq<GroupCard>>)
    ensures searchTerm == "" ==> r == Some(groups)
    ensures searchTerm != "" ==>
      (r.None? <==> exists i :: 0 <= i < |groups| && !Hit(groups[i].name, searchTerm) && groups[i].description.None?)
    ensures r.Some? && searchTerm != "" ==> forall g :: g in r.value <==> g in groups && GroupMatches(g, searchTerm)
    ensures r.Some? && searchTerm != "" ==> r.value == Filter((g: GroupCard) => GroupMatches(g, searchTerm), groups)
    ensures r.Some? ==> multiset(r.value) <= multiset(groups)
  {
    if searchTerm == "" then Some(groups)
    else
      var test := GroupTest(searchTerm);
      assert forall g :: test(g).None? <==> !Hit(g.name, searchTerm) && g.description.None?;
      assert forall g :: test(g) == Some(true) <==> GroupMatches(g, searchTerm);
      FilterAgree(Passes(test), (g: GroupCard) => GroupMatches(g, searchTerm), groups);
      FilterOrThrow(test, groups)
  }

  /** The sorting half of `filteredGroups`. */
  function SortGroups(groups: seq<GroupCard>, sortBy: string): (r: seq<GroupCard>)
    ensures multiset(r) == multiset(groups)
    ensures sortBy == "Name" ==> SortedBy(ByName(), r)
    ensures sortBy == "Latest" ==> forall i, j :: 0 <= i < j < |r| ==> r[i].createdAt >= r[j].createdAt
    ensures sortBy != "Name" && sortBy != "Latest" ==> r == groups
  {
    if sortBy == "Name" then
      assert SortedBy(ByName(), Sort(ByName(), groups)) by {
        ByNameIsPreorder();
        SortSorted(ByName(), groups);
      }
      Sort(ByName(), groups)
    else if sortBy == "Latest" then
      SortSorted(ByLatest(), groups);
      Sort(ByLatest(), groups)
    else groups
  }

  /** Groups that tie under the chosen order (equal names, or equal
      creation times) keep their list order. */
  lemma SortGroupsStable(groups: seq<GroupCard>, sortBy: string, g: GroupCard)
    ensures sortBy == "Name" ==>
      Filter(TiedWith(ByName(), g), SortGroups(groups, sortBy)) == Filter(TiedWith(ByName(), g), groups)
    ensures sortBy == "Latest" ==>
      Filter(TiedWith(ByLatest(), g), SortGroups(groups, sortBy)) == Filter(TiedWith(ByLatest(), g), groups)
  {
    if sortBy == "Name" {
      ByNameIsPreorder();
      SortStable(ByName(), groups, g);
    } else if sortBy == "Latest" {
      SortStable(ByLatest(), groups, g);
    }
  }

  /** `filteredGroups`: the groups matching a non-empty term (all groups
      for an empty one), sorted by name for 'Name', latest first for
      'Latest', and in list order otherwise. */
  function FilteredGroups(groups: seq<GroupCard>, searchTerm: string, sortBy: string): (r: Option<seq<GroupCard>>)
    ensures searchTerm == "" ==> r.Some? && multiset(r.value) == multiset(groups)
    ensures searchTerm != "" ==>
      (r.None? <==> exists i :: 0 <= i < |groups| && !Hit(groups[i].name, searchTerm) && groups[i].description.None?)
    ensures r.Some? && searchTerm != "" ==> forall g :: g in r.value <==> g in groups && GroupMatches(g, searchTerm)
    ensures r.Some? ==> multiset(r.value) <= multiset(groups)
    ensures r.Some? && sortBy == "Name" ==> SortedBy(ByName(), r.value)
    ensures r.Some? && sortBy == "Latest" ==> forall i, j :: 0 <= i < j < |r.value| ==> r.value[i].createdAt >= r.value[j].createdAt
    ensures searchTerm == "" && sortBy != "Name" && sortBy != "Latest" ==> r == Some(groups)
  {
    match SearchGroups(groups, searchTerm)
    case None => None
    case Some(c) =>
      var sorted := SortGroups(c, sortBy);
      PermutationMembers(sorted, c);
      Some(sorted)
  }

  /** The avatar row of a group card: one placeholder per member, at most
      three, and a '+k' badge for the members beyond three. */
  datatype Avatars = Avatars(placeholders: nat, badge: Option<nat>)

  /** `xs.slice(0, k)`: the first `k` elements, or all when there are
      fewer. */
  function Take<T>(xs: seq<T>, k: nat): seq<T>
  {
    if k <= |xs| then xs[..k] else xs
  }

  /** `[...Array(n)].slice(0, 3)` gives the placeholders; the badge reads
      `+(n - 3)` and shows only when `n > 3`. */
  function AvatarRow(members: nat): (a: Avatars)
    ensures members <= 3 ==> a.placeholders == members
    ensures members >= 3 ==> a.placeholders == 3
    ensures a.badge.Some? <==> members > 3
    ensures a.placeholders + (if a.badge.Some? then a.badge.value else 0) == members
  {
    var slots: seq<bool> := seq(members, _ => false);
    Avatars(|Take(slots, 3)|, if members > 3 then Some(members - 3) else None)
  }

  /** One more member adds a placeholder until there are three, and then
      raises the badge by one. */
  lemma AvatarRowGrows(n: nat)
    ensures n < 3 ==> AvatarRow(n + 1) == Avatars(AvatarRow(n).placeholders + 1, None)
    ensures n == 3 ==> AvatarRow(n + 1) == Avatars(3, Some(1))
    ensures n > 3 ==> AvatarRow(n + 1) == Avatars(3, Some(AvatarRow(n).badge.value + 1))
  {
  }

  /** `handleCreateSubmit` of the groups page: nothing happens for an empty
      name; otherwise the created group (absent when the POST fails) is
      appended. */
  function AfterCreateGroup(groups: seq<GroupCard>, name: string, created: Option<GroupCard>): (r: seq<GroupCard>)
    ensures name == "" || created.None? ==> r == groups
    ensures name != "" && created.Some? ==> |r| == |groups| + 1 && r[..|groups|] == groups && r[|groups|] == created.value
  {
    if name == "" then groups
    else match created
      case None => groups
      case Some(g) => groups + [g]
  }

  /** `handleDeleteGroup` after a successful DELETE. */
  function AfterDeleteGroup(groups: seq<GroupCard>, id: Id): (r: seq<GroupCard>)
    ensures forall g :: g in r <==> g in groups && g.id != id
  {
    Filter((g: GroupCard) => g.id != id, groups)
  }

  /** Deleting keeps the remaining groups in their order: it distributes
      over any split of the list, and removes nothing when no group has
      the id. */
  lemma DeleteGroupKeepsOrder(a: seq<GroupCard>, b: seq<GroupCard>, id: Id)
    ensures AfterDeleteGroup(a + b, id) == AfterDeleteGroup(a, id) + AfterDeleteGroup(b, id)
    ensures (forall i :: 0 <= i < |a| ==> a[i].id != id) ==> AfterDeleteGroup(a, id) == a
  {
    FilterAppend((g: GroupCard) => g.id != id, a, b);
    if forall i :: 0 <= i < |a| ==> a[i].id != id {
      FilterKeepsAll((g: GroupCard) => g.id != id, a);
    }
  }

  /** Creating a group and deleting it again restores the list, when its
      id was new to the list. */
  lemma CreateThenDeleteGroup(groups: seq<GroupCard>, name: string, g: GroupCard)
    requires name != ""
    requires forall i :: 0 <= i < |groups| ==> groups[i].id != g.id
    ensures AfterDeleteGroup(AfterCreateGroup(groups, name, Some(g)), g.id) == groups
  {
    var p := (x: GroupCard) => x.id != g.id;
    FilterAppend(p, groups, [g]);
    FilterKeepsAll(p, groups);
    assert Filter(p, [g]) == [];
  }

  /** The course test of the search: title, then description (which throws
      when missing), then code. */
  function CourseTest(term: string): CourseCard -> Option<bool>
  {
    (c: CourseCard) =>
      if Hit(c.title, term) then Some(true)
      else if c.description.None? then None
      else Some(Hit(c.description.value, term) || Hit(c.code, term))
  }

  predicate CourseMatches(c: CourseCard, term: string)
  {
    Hit(c.title, term) || (c.description.Some? && Hit(c.description.value, term)) || Hit(c.code, term)
  }

  /** `a.title.localeCompare(b.title)`, ascending. */
  function ByTitle(): (CourseCard, CourseCard) -> bool
  {
    (a: CourseCard, b: CourseCard) => LexLe(a.title, b.title)
  }

  function ByNewest(): (CourseCard, CourseCard) -> bool
  {
    (a: CourseCard, b: CourseCard) => a.createdAt >= b.createdAt
  }

  lemma ByTitleIsPreorder()
    ensures TotalPreorder(ByTitle())
  {
    forall a: CourseCard, b: CourseCard
      ensures ByTitle()(a, b) || ByTitle()(b, a)
    {
      LexTotal(a.title, b.title);
    }
    forall a: CourseCard, b: CourseCard, c: CourseCard | ByTitle()(a, b) && ByTitle()(b, c)
      ensures ByTitle()(a, c)
    {
      LexTrans(a.title, b.title, c.title);
    }
  }

  /** The filtering half of `filteredCourses`. */
  function SearchCourses(courses: seq<CourseCard>, searchTerm: string): (r: Option<seq<CourseCard>>)
    ensures searchTerm == "" ==> r == Some(courses)
    ensures searchTerm != "" ==>
      (r.None? <==> exists i :: 0 <= i < |courses| && !Hit(courses[i].title, searchTerm) && courses[i].description.None?)
    ensures r.Some? && searchTerm != "" ==> forall c :: c in r.value <==> c in courses && CourseMatches(c, searchTerm)
    ensures r.Some? && searchTerm != "" ==> r.value == Filter((c: CourseCard) => CourseMatches(c, searchTerm), courses)
    ensures r.Some? ==> multiset(r.value) <= multiset(courses)
  {
    if searchTerm == "" then Some(courses)
    else
      var test := CourseTest(searchTerm);
      assert forall c :: test(c).None? <==> !Hit(c.title, searchTerm) && c.description.None?;
      assert forall c :: test(c) == Some(true) ==> CourseMatches(c, searchTerm);
      assert forall c :: test(c).Some? && CourseMatches(c, searchTerm) ==> test(c) == Some(true);
      var r := FilterOrThrow(test, courses);
      if r.None? then r
      else
        FilterAgree(Passes(test), (c: CourseCard) => CourseMatches(c, searchTerm), courses);
        r
  }

  /** The sorting half of `filteredCourses`. */
  function SortCourses(courses: seq<CourseCard>, sortBy: string): (r: seq<CourseCard>)
    ensures multiset(r) == multiset(courses)
    ensures sortBy == "Title" ==> SortedBy(ByTitle(), r)
    ensures sortBy != "Title" ==> forall i, j :: 0 <= i < j < |r| ==> r[i].createdAt >= r[j].createdAt
  {
    if sortBy == "Title" then
      assert SortedBy(ByTitle(), Sort(ByTitle(), courses)) by {
        ByTitleIsPreorder();
        SortSorted(ByTitle(), courses);
      }
      Sort(ByTitle(), courses)
    else
      SortSorted(ByNewest(), courses);
      Sort(ByNewest(), courses)
  }

  /** Courses that tie under the chosen order (equal titles, or equal
      creation times) keep their list order. */
  lemma SortCoursesStable(courses: seq<CourseCard>, sortBy: string, c: CourseCard)
    ensures sortBy == "Title" ==>
      Filter(TiedWith(ByTitle(), c), SortCourses(courses, sortBy)) == Filter(TiedWith(ByTitle(), c), courses)
    ensures sortBy != "Title" ==>
      Filter(TiedWith(ByNewest(), c), SortCourses(courses, sortBy)) == Filter(TiedWith(ByNewest(), c), courses)
  {
    if sortBy == "Title" {
      ByTitleIsPreorder();
      SortStable(ByTitle(), courses, c);
    } else {
      SortStable(ByNewest(), courses, c);
    }
  }

  /** `filteredCourses`: the courses matching a non-empty term (all of
      them for an empty one), by title for 'Title' and newest first for
      any other choice. */
  function FilteredCourses(courses: seq<CourseCard>, searchTerm: string, sortBy: string): (r: Option<seq<CourseCard>>)
    ensures searchTerm == "" ==> r.Some? && multiset(r.value) == multiset(courses)
    ensures searchTerm != "" ==>
      (r.None? <==> exists i :: 0 <= i < |courses| && !Hit(courses[i].title, searchTerm) && courses[i].description.None?)
    ensures r.Some? && searchTerm != "" ==> forall c :: c in r.value <==> c in courses && CourseMatches(c, searchTerm)
    ensures r.Some? ==> multiset(r.value) <= multiset(courses)
    ensures r.Some? && sortBy == "Title" ==> SortedBy(ByTitle(), r.value)
    ensures r.Some? && sortBy != "Title" ==> forall i, j :: 0 <= i < j < |r.value| ==> r.value[i].createdAt >= r.value[j].createdAt
  {
    match SearchCourses(courses, searchTerm)
    case None => None
    case Some(c) =>
      var sorted := SortCourses(c, sortBy);
      PermutationMembers(sorted, c);
      Some(sorted)
  }

  /** A matching code does not save a course without a description: the
      description is looked at first, and the search fails. */
  lemma CodeHitStillThrows()
    ensures FilteredCourses([CourseCard(0, "x", "m1", None, 0)], "m", "Latest").None?
  {
    var c := CourseCard(0, "x", "m1", None, 0);
    assert !Hit(c.title, "m") by {
      assert Lower("x") == "x" && Lower("m") == "m";
      forall k | 0 <= k <= 1
        ensures !StartsWith("x"[k..], "m")
      {
        if k == 0 {
          assert "x"[k..][..1] == "x";
        }
      }
    }
  }

  /** `handleCreateSubmit` of the courses page: the created course (absent
      when the POST fails) is appended. */
  function AfterCreateCourse(courses: seq<CourseCard>, created: Option<CourseCard>): (r: seq<CourseCard>)
    ensures created.None? ==> r == courses
    ensures created.Some? ==> |r| == |courses| + 1 && r[..|courses|] == courses && r[|courses|] == created.value
  {
    match created
    case None => courses
    case Some(c) => courses + [c]
  }

  /** `handleDeleteCourse` after a successful DELETE. */
  function AfterDeleteCourse(courses: seq<CourseCard>, id: Id): (r: seq<CourseCard>)
    ensures forall c :: c in r <==> c in courses && c.id != id
  {
    Filter((c: CourseCard) => c.id != id, courses)
  }

  /** Deleting keeps the remaining courses in their order. */
  lemma DeleteCourseKeepsOrder(a: seq<CourseCard>, b: seq<CourseCard>, id: Id)
    ensures AfterDeleteCourse(a + b, id) == AfterDeleteCourse(a, id) + AfterDeleteCourse(b, id)
    ensures (forall i :: 0 <= i < |a| ==> a[i].id != id) ==> AfterDeleteCourse(a, id) == a
  {
    FilterAppend((c: CourseCard) => c.id != id, a, b);
    if forall i :: 0 <= i < |a| ==> a[i].id != id {
      FilterKeepsAll((c: CourseCard) => c.id != id, a);
    }
  }

  lemma CreateThenDeleteCourse(courses: seq<CourseCard>, c: CourseCard)
    requires forall i :: 0 <= i < |courses| ==> courses[i].id != c.id
    ensures AfterDeleteCourse(AfterCreateCourse(courses, Some(c)), c.id) == courses
  {
    var p := (x: CourseCard) => x.id != c.id;
    FilterAppend(p, courses, [c]);
    FilterKeepsAll(p, courses);
    assert Filter(p, [c]) == [];
  }
}
