/** The e-mail format the user schema enforces (backend/models/User.js):
    `match: /.+@.+\..+/`. The pattern is unanchored, so `test` succeeds when
    SOME stretch of the string has the shape "something @ something .
    something", where `.` matches every character except the four
    ECMAScript line terminators. */
module Email {

  predicate IsLineTerminator(c: char)
  {
    c == '\n' || c == '\r' || c == '\U{2028}' || c == '\U{2029}'
  }

  /** The regular-expression `.` accepts `c`. */
  predicate Dot(c: char)
  {
    !IsLineTerminator(c)
  }

  /** Every character of `s` in [lo, hi) is a `.`-character. */
  predicate DotsBetween(s: string, lo: int, hi: int)
    requires 0 <= lo && hi <= |s|
  {
    forall k :: lo <= k < hi ==> Dot(s[k])
  }

  /** `t` is x "@" y "." z with the '@' at `i`, the '.' at `j`, and x, y, z
      non-empty runs of `.`-characters. The separators are themselves
      `.`-characters, so the whole of `t` is. */
  predicate ShapeAt(t: string, i: int, j: int)
  {
    1 <= i && i + 2 <= j && j + 2 <= |t| && t[i] == '@' && t[j] == '.' && DotsBetween(t, 0, |t|)
  }

  /** `t` as a whole matches `.+@.+\..+`. */
  ghost predicate WholeMatch(t: string)
  {
    exists i, j :: ShapeAt(t, i, j)
  }

  /** `/.+@.+\..+/.test(s)`: some substring of `s` matches as a whole. */
  ghost predicate RegexTest(s: string)
  {
    exists a, b :: 0 <= a <= b <= |s| && WholeMatch(s[a..b])
  }

  /** The local condition the schema's check amounts to, at an '@' in
      position `i` and a '.' in position `j`: a `.`-character before the
      '@', one after the '.', and only `.`-characters between the two. */
  predicate EmailAt(s: string, i: int, j: int)
  {
    && 0 < i < |s| && i + 2 <= j < |s| - 1 && s[i] == '@' && s[j] == '.'
    && Dot(s[i - 1]) && DotsBetween(s, i + 1, j) && Dot(s[j + 1])
  }

  predicate IsEmail(s: string)
  {
    exists i, j | 0 < i < |s| && i + 2 <= j < |s| - 1 :: EmailAt(s, i, j)
  }

  lemma MatchFromWitness(s: string, i: int, j: int)
    requires EmailAt(s, i, j)
    ensures RegexTest(s)
  {
    var t := s[i - 1..j + 2];
    var j' := j - i + 1;
    forall k | 0 <= k < |t|
      ensures Dot(t[k])
    {
      assert t[k] == s[i - 1 + k];
    }
    assert ShapeAt(t, 1, j');
  }

  lemma WitnessFromMatch(s: string, a: int, b: int)
    requires 0 <= a <= b <= |s| && WholeMatch(s[a..b])
    ensures IsEmail(s)
  {
    var t := s[a..b];
    var i', j' :| ShapeAt(t, i', j');
    var i, j := a + i', a + j';
    forall k | 0 <= k < |t|
      ensures t[k] == s[a + k]
    {
    }
    assert Dot(t[i' - 1]) && Dot(t[j' + 1]);
    assert EmailAt(s, i, j);
  }

  /** The schema's check is exactly the regular expression's `test`. */
  lemma IsEmailIffRegex(s: string)
    ensures IsEmail(s) <==> RegexTest(s)
  {
    if IsEmail(s) {
      var i, j :| EmailAt(s, i, j);
      MatchFromWitness(s, i, j);
    }
    if RegexTest(s) {
      var a, b :| 0 <= a <= b <= |s| && WholeMatch(s[a..b]);
      WitnessFromMatch(s, a, b);
    }
  }

  /** On a single-line string the check reduces to: an '@' that is not the
      first character, and a '.' at least two characters after it that is
      neither of the last two. */
  lemma SingleLineEmail(s: string)
    requires DotsBetween(s, 0, |s|)
    ensures IsEmail(s) <==>
      exists i, j :: 0 < i < |s| && i + 2 <= j < |s| - 1 && s[i] == '@' && s[j] == '.'
  {
    if exists i, j :: 0 < i < |s| && i + 2 <= j < |s| - 1 && s[i] == '@' && s[j] == '.' {
      var i, j :| 0 < i < |s| && i + 2 <= j < |s| - 1 && s[i] == '@' && s[j] == '.';
      assert EmailAt(s, i, j);
    }
  }

  /** Two concrete readings of the pattern: a plain address passes, an
      address without a dot after the '@' does not. */
  lemma Examples()
    ensures IsEmail("a@b.co")
    ensures !IsEmail("a@bco")
  {
    assert EmailAt("a@b.co", 1, 3);
    var u := "a@bco";
    assert forall j :: 0 <= j < |u| ==> u[j] != '.';
  }
}
