/**
 * `cleanContent` of ArticleSummary.js: `content.replace(/\n\s*\n/g, '\n').trim()`.
 *
 * The global replace scans left to right. At a line feed, `\s*` first takes
 * the whole whitespace run that follows and then gives characters back until
 * a line feed can end the match, so a match runs from a line feed to the LAST
 * line feed of the whitespace run after it, and is replaced by one line feed.
 * A line feed whose following whitespace run holds no other line feed is kept.
 */
module CleanContent {
  import opened Text

  /** No line feed occurs in `t` before its first non-whitespace character. */
  predicate NoNewlineBeforeText(t: string)
    decreases |t|
  {
    t == [] || !IsWs(t[0]) || (t[0] != '\n' && NoNewlineBeforeText(t[1..]))
  }

  /**
   * No two line feeds are separated by whitespace only: after every line feed
   * the next line feed, if any, comes after some non-whitespace character.
   */
  predicate NoBlankLine(s: string)
    decreases |s|
  {
    s == [] || ((s[0] == '\n' ==> NoNewlineBeforeText(s[1..])) && NoBlankLine(s[1..]))
  }

  /**
   * The index of the last line feed in the whitespace run at the start of `t`,
   * or -1: where a match of `\n\s*\n` that starts just before `t` ends.
   */
  function LastNewlineInRun(t: string): (r: int)
    ensures -1 <= r < |t|
    ensures r >= 0 ==> t[r] == '\n' && AllWs(t[..r + 1]) && NoNewlineBeforeText(t[r + 1..])
    ensures r < 0 <==> NoNewlineBeforeText(t)
    decreases |t|
  {
    if t == [] || !IsWs(t[0]) then -1
    else
      var r := LastNewlineInRun(t[1..]);
      if r >= 0 then
        assert t[..r + 2] == [t[0]] + t[1..][..r + 1];
        assert t[r + 2..] == t[1..][r + 1..];
        r + 1
      else if t[0] == '\n' then
        assert t[1..] == t[0 + 1..];
        0
      else -1
  }

  /** `replace(/\n\s*\n/g, '\n')`. */
  function Collapse(s: string): (r: string)
    ensures |r| <= |s|
    decreases |s|
  {
    if s == [] then []
    else if s[0] == '\n' && LastNewlineInRun(s[1..]) >= 0 then
      "\n" + Collapse(s[LastNewlineInRun(s[1..]) + 2..])
    else
      [s[0]] + Collapse(s[1..])
  }

  /** `cleanContent`. */
  function Clean(content: string): (r: string)
    ensures NoEdgeWs(r)
  {
    Trim(Collapse(content))
  }

  lemma {:induction false} CollapseKeepsOpenLine(t: string)
    requires NoNewlineBeforeText(t)
    ensures NoNewlineBeforeText(Collapse(t))
    decreases |t|
  {
    if t != [] && IsWs(t[0]) {
      CollapseKeepsOpenLine(t[1..]);
    }
  }

  /** After the replace, no blank line is left. */
  lemma {:induction false} CollapseNoBlankLine(s: string)
    ensures NoBlankLine(Collapse(s))
    decreases |s|
  {
    if s != [] {
      var j := LastNewlineInRun(s[1..]);
      if s[0] == '\n' && j >= 0 {
        var u := s[j + 2..];
        assert u == s[1..][j + 1..];
        CollapseNoBlankLine(u);
        CollapseKeepsOpenLine(u);
        assert ("\n" + Collapse(u))[1..] == Collapse(u);
      } else {
        CollapseNoBlankLine(s[1..]);
        if s[0] == '\n' {
          CollapseKeepsOpenLine(s[1..]);
        }
        assert ([s[0]] + Collapse(s[1..]))[1..] == Collapse(s[1..]);
      }
    }
  }

  lemma {:induction false} NonWsOfBlankPrefix(s: string, k: nat)
    requires k <= |s| && AllWs(s[..k])
    ensures NonWs(s) == NonWs(s[k..])
  {
    assert s == s[..k] + s[k..];
    NonWsAppend(s[..k], s[k..]);
    NonWsOfBlank(s[..k]);
  }

  /** The replace removes whitespace only. */
  lemma {:induction false} CollapseKeepsText(s: string)
    ensures NonWs(Collapse(s)) == NonWs(s)
    decreases |s|
  {
    if s != [] {
      var j := LastNewlineInRun(s[1..]);
      if s[0] == '\n' && j >= 0 {
        var u := s[j + 2..];
        CollapseKeepsText(u);
        assert s[..j + 2] == [s[0]] + s[1..][..j + 1];
        AllWsAppend([s[0]], s[1..][..j + 1]);
        NonWsOfBlankPrefix(s, j + 2);
        var c := Collapse(u);
        assert Collapse(s) == "\n" + c;
        assert ("\n" + c)[1..] == c;
      } else {
        var c := Collapse(s[1..]);
        CollapseKeepsText(s[1..]);
        assert Collapse(s) == [s[0]] + c;
        assert ([s[0]] + c)[1..] == c;
      }
    }
  }

  /** Text without blank lines is left alone by the replace. */
  lemma {:induction false} CollapseFixesNoBlankLine(s: string)
    requires NoBlankLine(s)
    ensures Collapse(s) == s
    decreases |s|
  {
    if s != [] {
      CollapseFixesNoBlankLine(s[1..]);
      assert [s[0]] + s[1..] == s;
    }
  }

  lemma {:induction false} OpenLinePrefix(t: string, m: nat)
    requires m <= |t| && NoNewlineBeforeText(t)
    ensures NoNewlineBeforeText(t[..m])
    decreases |t|
  {
    if m > 0 && IsWs(t[0]) {
      assert t[..m][1..] == t[1..][..m - 1];
      OpenLinePrefix(t[1..], m - 1);
    }
  }

  lemma {:induction false} NoBlankLinePrefix(s: string, m: nat)
    requires m <= |s| && NoBlankLine(s)
    ensures NoBlankLine(s[..m])
    decreases |s|
  {
    if m > 0 {
      assert s[..m][1..] == s[1..][..m - 1];
      NoBlankLinePrefix(s[1..], m - 1);
      if s[0] == '\n' {
        OpenLinePrefix(s[1..], m - 1);
      }
    }
  }

  lemma {:induction false} NoBlankLineSuffix(s: string, k: nat)
    requires k <= |s| && NoBlankLine(s)
    ensures NoBlankLine(s[k..])
    decreases k
  {
    if k > 0 {
      NoBlankLineSuffix(s[1..], k - 1);
      assert s[1..][k - 1..] == s[k..];
    }
  }

  lemma TrimKeepsNoBlankLine(s: string)
    requires NoBlankLine(s)
    ensures NoBlankLine(Trim(s))
  {
    var a := TrimIsSlice(s);
    var r := Trim(s);
    NoBlankLineSuffix(s, a);
    NoBlankLinePrefix(s[a..], |r|);
    assert s[a..][..|r|] == r;
  }

  /** The cleaned text holds no blank line. */
  lemma CleanNoBlankLine(content: string)
    ensures NoBlankLine(Clean(content))
  {
    CollapseNoBlankLine(content);
    TrimKeepsNoBlankLine(Collapse(content));
  }

  /** Cleaning keeps every non-whitespace character, in order. */
  lemma CleanKeepsText(content: string)
    ensures NonWs(Clean(content)) == NonWs(content)
  {
    CollapseKeepsText(content);
    TrimKeepsText(Collapse(content));
  }

  /** Cleaning twice is cleaning once. */
  lemma CleanIdempotent(content: string)
    ensures Clean(Clean(content)) == Clean(content)
  {
    var r := Clean(content);
    CleanNoBlankLine(content);
    CollapseFixesNoBlankLine(r);
    TrimKeepsTrimmed(r);
  }

  lemma {:induction false} OpenLineHasTextBefore(t: string, m: nat)
    requires m < |t| && t[m] == '\n' && NoNewlineBeforeText(t)
    ensures exists k :: 0 <= k < m && !IsWs(t[k])
    decreases |t|
  {
    if IsWs(t[0]) {
      OpenLineHasTextBefore(t[1..], m - 1);
      var k :| 0 <= k < m - 1 && !IsWs(t[1..][k]);
      assert !IsWs(t[k + 1]);
    }
  }

  /** NoBlankLine in index form: between any two line feeds stands a non-whitespace character. */
  lemma {:induction false} NoBlankLineMeans(s: string, i: nat, j: nat)
    requires NoBlankLine(s)
    requires i < j < |s| && s[i] == '\n' && s[j] == '\n'
    ensures exists k :: i < k < j && !IsWs(s[k])
    decreases |s|
  {
    if i == 0 {
      OpenLineHasTextBefore(s[1..], j - 1);
      var k :| 0 <= k < j - 1 && !IsWs(s[1..][k]);
      assert !IsWs(s[k + 1]);
    } else {
      NoBlankLineMeans(s[1..], i - 1, j - 1);
      var k :| i - 1 < k < j - 1 && !IsWs(s[1..][k]);
      assert !IsWs(s[k + 1]);
    }
  }
}
