/**
 * The visibility gate of ArticleSummary.js: the summary is set up only when it
 * is enabled, the page URL is not blacklisted, and some URL pattern matches
 * the page path.
 *
 * A URL pattern is a glob. It is translated to a regular expression by
 * dropping one leading `*`, then one trailing `*`, turning every other `*`
 * into `.*`, and putting a `/` in front unless the result already starts
 * with one. For patterns with no other regex metacharacter, that expression
 * is a list of literal segments joined by `.*`, and an unanchored regex
 * search for it succeeds iff the segments occur in the path in order,
 * without overlapping.
 */
module UrlGate {
  import opened Text

  /** Characters that JavaScript regular expressions treat specially, other than `*`. */
  predicate IsRegexSpecial(c: char) {
    c in "\\^$.|?+()[]{}"
  }

  /** A glob whose only special character is `*`. */
  predicate IsPlainGlob(p: string) {
    forall c :: c in p ==> !IsRegexSpecial(c)
  }

  predicate AllPlain(patterns: seq<string>) {
    forall k :: 0 <= k < |patterns| ==> IsPlainGlob(patterns[k])
  }

  /** Drops one leading `*` and then one trailing `*`. */
  function StripAnchors(p: string): (q: string)
    ensures forall c :: c in q ==> c in p
    ensures exists i, e ::
              && 0 <= i <= 1 && |p| - 1 <= e <= |p| && i <= e && q == p[i..e]
              && (i == 1 <==> |p| > 0 && p[0] == '*')
              && (e == |p| - 1 <==> |p| > i && p[|p| - 1] == '*')
  {
    var a := if |p| > 0 && p[0] == '*' then p[1..] else p;
    var q := if |a| > 0 && a[|a| - 1] == '*' then a[..|a| - 1] else a;
    var i := |p| - |a|;
    assert q == p[i..i + |q|];
    q
  }

  /** The source text of the regular expression built from pattern `p`. */
  function Translate(p: string): (r: string)
    ensures |r| > 0 && r[0] == '/'
  {
    var q := ReplaceAll(StripAnchors(p), '*', ".*");
    if |q| > 0 && q[0] == '/' then q else "/" + q
  }

  /** Puts a `/` in front of the first piece unless it already starts with one. */
  function Rooted(parts: seq<string>): (segs: seq<string>)
    requires |parts| >= 1
    ensures |segs| == |parts| && segs[1..] == parts[1..]
    ensures |segs[0]| > 0 && segs[0][0] == '/'
    ensures |parts[0]| > 0 && parts[0][0] == '/' ==> segs == parts
    ensures !(|parts[0]| > 0 && parts[0][0] == '/') ==> segs[0] == "/" + parts[0]
  {
    if |parts[0]| > 0 && parts[0][0] == '/' then parts else ["/" + parts[0]] + parts[1..]
  }

  /**
   * The literal segments of the regular expression for `p`: the expression is
   * these segments joined by `.*` (see TranslateJoinsSegments).
   */
  function Segments(p: string): (segs: seq<string>)
    ensures |segs| >= 1 && |segs[0]| > 0 && segs[0][0] == '/'
    ensures forall k :: 0 <= k < |segs| ==> '*' !in segs[k]
    ensures IsPlainGlob(p) ==> forall k :: 0 <= k < |segs| ==> IsPlainGlob(segs[k])
  {
    var parts := Split(StripAnchors(p), '*');
    SplitPiecesFromString(StripAnchors(p), '*');
    var segs := Rooted(parts);
    assert forall k :: 1 <= k < |segs| ==> segs[k] == parts[k];
    segs
  }

  lemma JoinStartsWithFirst(parts: seq<string>, sep: string)
    requires |parts| >= 1
    ensures |Join(parts, sep)| >= |parts[0]| && Join(parts, sep)[..|parts[0]|] == parts[0]
  {
    if |parts| > 1 {
      assert Join(parts, sep) == parts[0] + (sep + Join(parts[1..], sep));
    }
  }

  /** The translated expression is the segments joined by `.*`. */
  lemma TranslateJoinsSegments(p: string)
    ensures Translate(p) == Join(Segments(p), ".*")
  {
    var s := StripAnchors(p);
    var parts := Split(s, '*');
    var q := ReplaceAll(s, '*', ".*");
    ReplaceAllIsJoinOfSplit(s, '*', ".*");
    assert q == Join(parts, ".*");
    JoinStartsWithFirst(parts, ".*");
    if |parts[0]| > 0 {
      assert q[0] == parts[0][0];
    } else if |parts| > 1 {
      assert q == "" + ".*" + Join(parts[1..], ".*");
      assert q[0] == '.';
    }
    if !(|parts[0]| > 0 && parts[0][0] == '/') {
      JoinPrependToFirst("/", parts, ".*");
    }
  }

  /** `"*"` and `"**"` both become the expression `/`; only one `*` is dropped at each end. */
  lemma TranslateStars()
    ensures Translate("*") == "/"
    ensures Translate("**") == "/"
    ensures Translate("***") == "/.*"
  {
    assert StripAnchors("*") == [];
    assert StripAnchors("**") == [];
    assert StripAnchors("***") == "*";
    assert ReplaceAll("*", '*', ".*") == ".*" + ReplaceAll([], '*', ".*");
  }

  /** Each segment occurs in `t`, in order, without overlapping the previous one. */
  ghost predicate InOrder(segs: seq<string>, t: string)
    decreases |segs|, 1
  {
    segs == [] || exists i :: MatchAt(segs, t, i)
  }

  /** The first segment occurs at `i` and the others occur, in order, after it. */
  ghost predicate MatchAt(segs: seq<string>, t: string, i: int)
    decreases |segs|, 0
  {
    |segs| > 0 && OccursAt(segs[0], t, i) && InOrder(segs[1..], t[i + |segs[0]|..])
  }

  /** The unanchored search for the expression of `p` succeeds on `path`. */
  ghost predicate Matches(p: string, path: string) {
    InOrder(Segments(p), path)
  }

  /** If the segments occur in a suffix of `t`, they occur in `t`. */
  lemma InOrderInSuffix(segs: seq<string>, t: string, k: nat)
    requires k <= |t| && InOrder(segs, t[k..])
    ensures InOrder(segs, t)
  {
    if segs != [] {
      var i :| MatchAt(segs, t[k..], i);
      assert t[k..][i..i + |segs[0]|] == t[k + i..k + i + |segs[0]|];
      assert t[k..][i + |segs[0]|..] == t[k + i + |segs[0]|..];
      assert MatchAt(segs, t, k + i);
    }
  }

  /**
   * The search a regex engine performs for literal segments joined by `.*`:
   * take the leftmost occurrence of each segment and continue after it.
   */
  function Search(segs: seq<string>, t: string): (r: bool)
    ensures segs == [] ==> r
    ensures r && segs != [] ==> exists i :: OccursAt(segs[0], t, i)
    decreases |segs|
  {
    if segs == [] then true
    else
      var i := IndexOf(segs[0], t);
      i >= 0 && Search(segs[1..], t[i + |segs[0]|..])
  }

  /** A successful greedy search exhibits the occurrences it found. */
  lemma {:induction false} SearchSound(segs: seq<string>, t: string)
    requires Search(segs, t)
    ensures InOrder(segs, t)
    decreases |segs|
  {
    if segs != [] {
      var i := IndexOf(segs[0], t);
      SearchSound(segs[1..], t[i + |segs[0]|..]);
      assert MatchAt(segs, t, i);
    }
  }

  /** Taking the leftmost occurrence never loses a match. */
  lemma {:induction false} SearchComplete(segs: seq<string>, t: string)
    requires InOrder(segs, t)
    ensures Search(segs, t)
    decreases |segs|
  {
    if segs != [] {
      var s := segs[0];
      var j :| MatchAt(segs, t, j);
      var i := IndexOf(s, t);
      assert i <= j;
      var u := t[i + |s|..];
      SuffixOfSuffix(t, i + |s|, j - i);
      InOrderInSuffix(segs[1..], u, j - i);
      SearchComplete(segs[1..], u);
    }
  }

  /** The greedy leftmost search decides the unanchored match. */
  lemma SearchIsInOrder(segs: seq<string>, t: string)
    ensures Search(segs, t) <==> InOrder(segs, t)
  {
    if Search(segs, t) {
      SearchSound(segs, t);
    }
    if InOrder(segs, t) {
      SearchComplete(segs, t);
    }
  }

  /** `regex.test(path)` for the expression built from the plain glob `p`. */
  function Test(p: string, path: string): (r: bool)
    requires IsPlainGlob(p)
    ensures r <==> Matches(p, path)
  {
    SearchIsInOrder(Segments(p), path);
    Search(Segments(p), path)
  }

  /** `shouldHideSummary`: the page URL is one of the blacklisted URLs, compared exactly. */
  function ShouldHideSummary(blacklist: seq<string>, href: string): (r: bool)
    ensures r <==> exists k :: 0 <= k < |blacklist| && blacklist[k] == href
  {
    href in blacklist
  }

  /** `shouldShowSummary`: some pattern matches the page path. */
  function ShouldShowSummary(patterns: seq<string>, path: string): (r: bool)
    requires AllPlain(patterns)
    ensures r <==> exists k :: 0 <= k < |patterns| && Matches(patterns[k], path)
    decreases |patterns|
  {
    if patterns == [] then false
    else
      var rest := ShouldShowSummary(patterns[1..], path);
      assert forall k :: 1 <= k < |patterns| ==> patterns[k] == patterns[1..][k - 1];
      Test(patterns[0], path) || rest
  }

  /**
   * The constructor's three early returns, in order: disabled, blacklisted,
   * no matching pattern. Patterns are only consulted past the first two.
   */
  function Gate(enabled: bool, blacklist: seq<string>, patterns: seq<string>, href: string, path: string): (r: bool)
    requires enabled && href !in blacklist ==> AllPlain(patterns)
    ensures !enabled ==> !r
    ensures href in blacklist ==> !r
    ensures patterns == [] ==> !r
    ensures enabled && href !in blacklist ==>
      (r <==> exists k :: 0 <= k < |patterns| && Matches(patterns[k], path))
  {
    if !enabled then false
    else if ShouldHideSummary(blacklist, href) then false
    else ShouldShowSummary(patterns, path)
  }

  /** A star-free pattern that starts with `/` matches exactly the paths containing it. */
  lemma LiteralPatternIsSubstring(p: string, path: string)
    requires '*' !in p && |p| > 0 && p[0] == '/'
    ensures Matches(p, path) <==> exists i :: OccursAt(p, path, i)
  {
    SegmentsOfLiteral(p);
    InOrderSingle(p, path);
  }

  lemma SegmentsOfLiteral(p: string)
    requires '*' !in p && |p| > 0 && p[0] == '/'
    ensures Segments(p) == [p]
  {
    assert p[|p| - 1] in p;
    assert StripAnchors(p) == p;
    SplitWithoutSeparator(p, '*');
  }

  /** A single segment occurs in order exactly when it occurs somewhere. */
  lemma InOrderSingle(x: string, t: string)
    ensures InOrder([x], t) <==> exists i :: OccursAt(x, t, i)
  {
    assert [x][0] == x && [x][1..] == [];
    if exists i :: OccursAt(x, t, i) {
      var i :| OccursAt(x, t, i);
      assert MatchAt([x], t, i);
    }
  }

  /** A trailing empty segment (a trailing `.*`) changes nothing. */
  lemma {:induction false} InOrderTrailingEmpty(segs: seq<string>, t: string)
    ensures InOrder(segs + [""], t) <==> InOrder(segs, t)
    decreases |segs|
  {
    if segs == [] {
      assert segs + [""] == [""] && [""][1..] == [];
      assert OccursAt("", t, 0);
      assert MatchAt([""], t, 0);
    } else {
      var s := segs[0];
      assert (segs + [""])[0] == s && (segs + [""])[1..] == segs[1..] + [""];
      forall i | OccursAt(s, t, i)
        ensures MatchAt(segs + [""], t, i) <==> MatchAt(segs, t, i)
      {
        InOrderTrailingEmpty(segs[1..], t[i + |s|..]);
      }
    }
  }

  lemma StripWrapped(x: string)
    ensures StripAnchors("*" + x + "*") == x
  {
    var w := "*" + x + "*";
    assert w[1..] == x + "*";
    assert (x + "*")[..|x|] == x;
  }

  lemma SegmentsOfTrailingStar(x: string)
    requires |x| > 1 && x[0] != '*' && x[|x| - 1] == '*'
    ensures Segments("*" + x + "*") == Segments(x) + [""]
  {
    var y := x[..|x| - 1];
    StripWrapped(x);
    assert StripAnchors(x) == y;
    assert x == y + ['*'];
    SplitTrailingSeparator(y, '*');
    var parts := Split(y, '*');
    assert Segments("*" + x + "*") == Rooted(parts + [""]);
    assert Segments(x) == Rooted(parts);
    assert Rooted(parts + [""]) == Rooted(parts) + [""];
  }

  /** Wrapping a pattern that does not start with `*` in stars accepts the same paths. */
  lemma StarWrappedIsSame(x: string, path: string)
    requires x == [] || x[0] != '*'
    ensures Matches("*" + x + "*", path) <==> Matches(x, path)
  {
    StripWrapped(x);
    if |x| > 1 && x[|x| - 1] == '*' {
      SegmentsOfTrailingStar(x);
      InOrderTrailingEmpty(Segments(x), path);
    } else {
      assert StripAnchors(x) == x;
    }
  }

  /** `"/docs"` matches `"/my/docs/page"`: the search is not anchored at the start. */
  lemma DocsMatchesInsidePath()
    ensures Matches("/docs", "/my/docs/page")
  {
    var p, path := "/docs", "/my/docs/page";
    assert path[3..8] == p;
    assert OccursAt(p, path, 3);
    SegmentsOfLiteral(p);
    InOrderSingle(p, path);
  }

  // The glob "*/blog/*" matches "/blog/2024/post".
  lemma BlogGlobMatches()
    ensures Matches("*/blog/*", "/blog/2024/post")
  {
    assert "*/blog/*" == "*" + "/blog/" + "*";
    StarWrappedIsSame("/blog/", "/blog/2024/post");
    BlogMatchesAtStart();
  }

  lemma BlogMatchesAtStart()
    ensures Matches("/blog/", "/blog/2024/post")
  {
    var x, path := "/blog/", "/blog/2024/post";
    assert path[0..6] == x;
    assert OccursAt(x, path, 0);
    SegmentsOfLiteral(x);
    InOrderSingle(x, path);
  }
}
