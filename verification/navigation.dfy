/** Where the dashboard shell says the user is: the active links of
    frontend/src/components/Sidebar.jsx and the page title of
    frontend/src/pages/Dashboard.jsx, both computed from the URL path. */
module Navigation {
  import opened Common
  import opened Strings

  datatype NavItem = NavItem(name: string, path: string)

  const DashboardPath := "/dashboard"

  /** The sidebar's links, in display order. */
  const NavItems: seq<NavItem> := [
    NavItem("Dashboard", "/dashboard"),
    NavItem("List", "/dashboard/list"),
    NavItem("My Groups", "/dashboard/my-groups"),
    NavItem("Courses", "/dashboard/courses"),
    NavItem("Profile", "/dashboard/profile")
  ]

  /** `isSubRouteActive`: the path starts with the path of some link other
      than the dashboard's own. */
  predicate IsSubRouteActive(pathname: string)
  {
    exists i | 0 <= i < |NavItems| :: NavItems[i].path != DashboardPath && StartsWith(pathname, NavItems[i].path)
  }

  /** The four sub-pages by name. */
  lemma SubRouteIff(pathname: string)
    ensures IsSubRouteActive(pathname) <==>
      || StartsWith(pathname, "/dashboard/list")
      || StartsWith(pathname, "/dashboard/my-groups")
      || StartsWith(pathname, "/dashboard/courses")
      || StartsWith(pathname, "/dashboard/profile")
  {
    if StartsWith(pathname, "/dashboard/list") {
      assert NavItems[1].path != DashboardPath && StartsWith(pathname, NavItems[1].path);
    }
    if StartsWith(pathname, "/dashboard/my-groups") {
      assert NavItems[2].path != DashboardPath && StartsWith(pathname, NavItems[2].path);
    }
    if StartsWith(pathname, "/dashboard/courses") {
      assert NavItems[3].path != DashboardPath && StartsWith(pathname, NavItems[3].path);
    }
    if StartsWith(pathname, "/dashboard/profile") {
      assert NavItems[4].path != DashboardPath && StartsWith(pathname, NavItems[4].path);
    }
  }

  predicate OnDashboardIndex(pathname: string)
  {
    pathname == "/dashboard" || pathname == "/dashboard/"
  }

  /** `isActive` as the last of the three blocks in the sidebar leaves it:
      the dashboard link on its index page (the sub-route guard is
      redundant there), every other link on any path under its own. */
  function IsActive(item: NavItem, pathname: string): (active: bool)
    ensures item.path == DashboardPath ==> (active <==> OnDashboardIndex(pathname))
    ensures item.path != DashboardPath ==> (active <==> StartsWith(pathname, item.path))
  {
    if item.path == DashboardPath then
      assert OnDashboardIndex(pathname) ==> !IsSubRouteActive(pathname) by {
        if OnDashboardIndex(pathname) {
          forall i | 0 <= i < |NavItems| && NavItems[i].path != DashboardPath
            ensures !StartsWith(pathname, NavItems[i].path)
          {
            assert |NavItems[i].path| > |pathname|;
          }
        }
      }
      OnDashboardIndex(pathname) && !IsSubRouteActive(pathname)
    else StartsWith(pathname, item.path)
  }

  /** The sidebar's computation as written: three successive blocks assign
      `isActive`, and the result is the last block's. */
  method SidebarActive(item: NavItem, pathname: string) returns (active: bool)
    ensures active == IsActive(item, pathname)
  {
    active := false;
    if item.path == DashboardPath {
      active := OnDashboardIndex(pathname) && !IsSubRouteActive(pathname);
    } else {
      active := StartsWith(pathname, item.path);
    }
    if item.path == DashboardPath {
      active := OnDashboardIndex(pathname);
    } else {
      active := StartsWith(pathname, item.path);
    }
    if item.path == DashboardPath {
      active := OnDashboardIndex(pathname) && !IsSubRouteActive(pathname);
    } else {
      active := StartsWith(pathname, item.path);
    }
  }

  /** The dashboard link and a sub-page link are never highlighted
      together. */
  lemma NeverBothActive(pathname: string, i: nat)
    requires 1 <= i < |NavItems|
    ensures !(IsActive(NavItems[0], pathname) && IsActive(NavItems[i], pathname))
  {
    if IsActive(NavItems[0], pathname) {
      assert |NavItems[i].path| > |pathname|;
    }
  }

  /** `Boolean` on a string. */
  predicate NonEmpty(w: string)
  {
    w != ""
  }

  /** `location.pathname.split('/').filter(Boolean)`. */
  function PathSegments(pathname: string): seq<string>
  {
    Filter(NonEmpty, Split(pathname, '/'))
  }

  /** The segments are exactly the non-empty pieces between slashes. */
  lemma SegmentsNonEmpty(pathname: string)
    ensures var segs := PathSegments(pathname);
      && (forall i :: 0 <= i < |segs| ==> segs[i] != "" && '/' !in segs[i])
      && (forall w :: w in segs <==> w in Split(pathname, '/') && w != "")
  {
    var segs := PathSegments(pathname);
    assert forall i :: 0 <= i < |segs| ==> segs[i] in Split(pathname, '/');
  }

  /** A slash splits the segments apart: the segments of `a + "/" + b` are
      those of `a` followed by those of `b`, in order and with repeats. */
  lemma SegmentsConcat(a: string, b: string)
    ensures PathSegments(a + "/" + b) == PathSegments(a) + PathSegments(b)
  {
    assert a + "/" + b == a + ['/'] + b;
    SplitConcat(a, b, '/');
    FilterAppend(NonEmpty, Split(a, '/'), Split(b, '/'));
  }

  /** A slash-free word is one segment, or none when it is empty. Together
      with `SegmentsConcat` this determines the segments of every path. */
  lemma SegmentsOfWord(w: string)
    requires '/' !in w
    ensures PathSegments(w) == (if w == "" then [] else [w])
  {
    SplitFree(w, '/');
    FilterCons(NonEmpty, [w]);
    assert [w][1..] == [];
  }

  /** `currentPage`: the second segment, or 'Dashboard' when there is none. */
  function CurrentPage(pathname: string): (r: string)
    ensures |PathSegments(pathname)| > 1 ==> r == PathSegments(pathname)[1]
    ensures |PathSegments(pathname)| <= 1 ==> r == "Dashboard"
  {
    var segs := PathSegments(pathname);
    if |segs| > 1 then segs[1] else "Dashboard"
  }

  /** A leading slash adds no segment. */
  lemma RootSegments(x: string)
    ensures PathSegments("/" + x) == PathSegments(x)
  {
    SegmentsOfWord("");
    SegmentsConcat("", x);
    assert "/" + x == "" + "/" + x;
  }

  /** A trailing slash adds no segment. */
  lemma TrailingSlash(x: string)
    ensures PathSegments(x + "/") == PathSegments(x)
  {
    SegmentsOfWord("");
    SegmentsConcat(x, "");
    assert x + "/" == x + "/" + "";
  }

  /** Below '/w1/', the page is the first segment of what follows. */
  lemma PageAfterFirst(w1: string, x: string)
    requires w1 != "" && '/' !in w1
    requires PathSegments(x) != []
    ensures CurrentPage("/" + w1 + "/" + x) == PathSegments(x)[0]
  {
    var y := w1 + "/" + x;
    SegmentsOfWord(w1);
    SegmentsConcat(w1, x);
    RootSegments(y);
    Regroup("/", w1, "/", x);
    assert PathSegments("/" + y) == [w1] + PathSegments(x);
  }

  lemma Regroup(a: string, b: string, c: string, d: string)
    ensures a + b + c + d == a + (b + c + d)
  {
  }

  /** On '/w1/w2', and on anything below it, the page is `w2`. */
  lemma CurrentPageShape(w1: string, w2: string, rest: string)
    requires w1 != "" && w2 != "" && '/' !in w1 && '/' !in w2
    ensures CurrentPage("/" + w1 + "/" + w2) == w2
    ensures CurrentPage("/" + w1 + "/" + w2 + "/" + rest) == w2
  {
    SegmentsOfWord(w2);
    PageAfterFirst(w1, w2);
    SegmentsConcat(w2, rest);
    PageAfterFirst(w1, w2 + "/" + rest);
    Regroup("/" + w1 + "/", w2, "/", rest);
  }

  /** With a single segment, such as on '/dashboard' or '/dashboard/', the
      page falls back to 'Dashboard'. */
  lemma CurrentPageFallback(w: string)
    requires '/' !in w
    ensures CurrentPage("/" + w) == "Dashboard"
    ensures CurrentPage("/" + w + "/") == "Dashboard"
  {
    SegmentsOfWord(w);
    RootSegments(w);
    TrailingSlash("/" + w);
  }

  /** `word.charAt(0).toUpperCase() + word.slice(1)`. */
  function Capitalize(w: string): (r: string)
    ensures |r| == |w|
    ensures w != "" ==> r[0] == UpperChar(w[0]) && r[1..] == w[1..]
  {
    if w == "" then "" else [UpperChar(w[0])] + w[1..]
  }

  function CapitalizeAll(words: seq<string>): (r: seq<string>)
    ensures |r| == |words|
    ensures forall i :: 0 <= i < |words| ==> r[i] == Capitalize(words[i])
  {
    seq(|words|, i requires 0 <= i < |words| => Capitalize(words[i]))
  }

  /** `formatTitle`: the words between hyphens, each capitalised, joined by
      single spaces. */
  function FormatTitle(path: string): (r: string)
    ensures '-' !in r
  {
    var words := CapitalizeAll(Split(path, '-'));
    assert forall i :: 0 <= i < |words| ==> '-' !in words[i] by {
      forall i | 0 <= i < |words|
        ensures '-' !in words[i]
      {
        CapitalizeKeeps(Split(path, '-')[i], '-');
      }
    }
    JoinFree(words, ' ', '-');
    Join(words, ' ')
  }

  /** Capitalising changes no character into or out of a non-letter. */
  lemma CapitalizeKeeps(w: string, c: char)
    requires !('a' <= c <= 'z') && !('A' <= c <= 'Z')
    ensures c in Capitalize(w) <==> c in w
  {
    if w != "" {
      assert w == [w[0]] + w[1..];
      assert Capitalize(w) == [UpperChar(w[0])] + w[1..];
    }
  }

  /** Joining pieces that avoid `c` with a separator other than `c` avoids
      `c`. */
  lemma {:induction false} JoinFree(parts: seq<string>, sep: char, c: char)
    requires c != sep
    requires forall i :: 0 <= i < |parts| ==> c !in parts[i]
    ensures c !in Join(parts, sep)
  {
    if |parts| > 1 {
      JoinFree(parts[1..], sep, c);
    }
  }

  /** For a path without spaces the title has exactly one word per
      hyphen-separated piece, each the capitalised piece. The title is
      formatted from a segment of `location.pathname`, which the browser
      percent-encodes, so a space never reaches it and the precondition
      holds for every page. */
  lemma {:induction false} FormatTitleWords(path: string)
    requires ' ' !in path
    ensures Split(FormatTitle(path), ' ') == CapitalizeAll(Split(path, '-'))
    ensures |Split(FormatTitle(path), ' ')| == Count(path, '-') + 1
  {
    var pieces := Split(path, '-');
    var words := CapitalizeAll(pieces);
    forall i | 0 <= i < |words|
      ensures ' ' !in words[i]
    {
      assert pieces[i] in Split(path, '-');
      SplitPieceFree(path, '-', ' ', i);
      CapitalizeKeeps(pieces[i], ' ');
    }
    SplitJoin(words, ' ');
  }

  /** A piece of a split holds only characters of the string. */
  lemma {:induction false} SplitPieceFree(s: string, sep: char, c: char, i: nat)
    requires c !in s
    requires i < |Split(s, sep)|
    ensures c !in Split(s, sep)[i]
  {
    if s != [] {
      var rest := Split(s[1..], sep);
      assert c !in s[1..];
      if s[0] == sep {
        if i > 0 {
          SplitPieceFree(s[1..], sep, c, i - 1);
        }
      } else if i == 0 {
        SplitPieceFree(s[1..], sep, c, 0);
      } else {
        SplitPieceFree(s[1..], sep, c, i);
      }
    }
  }

  lemma {:induction false} SplitSubPage(w: string)
    requires '/' !in w
    ensures Split("/dashboard/" + w, '/') == ["", "dashboard", w]
  {
    var d := "dashboard";
    assert '/' !in d;
    assert "/dashboard/" + w == [] + ['/'] + (d + ['/'] + w);
    SplitPrefix([], d + ['/'] + w, '/');
    SplitPrefix(d, w, '/');
    SplitFree(w, '/');
  }

  /** Under the dashboard, the page is the segment after '/dashboard/'. */
  lemma {:induction false} SubPageSegment(w: string)
    requires w != "" && '/' !in w
    ensures CurrentPage("/dashboard/" + w) == w
  {
    SplitSubPage(w);
    var pieces: seq<string> := ["", "dashboard", w];
    assert pieces[1..] == ["dashboard", w] && pieces[1..][1..] == [w] && [w][1..] == [];
    assert Filter(NonEmpty, [w]) == [w];
    assert Filter(NonEmpty, ["dashboard", w]) == ["dashboard", w];
    assert Filter(NonEmpty, pieces) == ["dashboard", w];
  }

  /** A two-word page name becomes two capitalised words. */
  lemma {:induction false} TwoWordTitle(a: string, b: string)
    requires '-' !in a && '-' !in b
    ensures FormatTitle(a + "-" + b) == Capitalize(a) + " " + Capitalize(b)
  {
    assert a + "-" + b == a + ['-'] + b;
    SplitPrefix(a, b, '-');
    SplitFree(b, '-');
    assert Split(a + "-" + b, '-') == [a, b];
    var words := CapitalizeAll([a, b]);
    assert words == [Capitalize(a), Capitalize(b)];
    assert Join(words, ' ') == words[0] + [' '] + Join(words[1..], ' ');
  }
}
