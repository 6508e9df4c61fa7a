/**
 * String operations of JavaScript that the widget relies on, over `seq<char>`:
 * `trim`, `split` on one character, a global replace of one character, and a
 * substring search. Whitespace is a fixed ASCII set used both for `trim` and
 * for the regular-expression class `\s`.
 */
module Text {

  /** Space, tab, line feed, carriage return, vertical tab and form feed. */
  predicate IsWs(c: char) {
    c == ' ' || c == '\t' || c == '\n' || c == '\r' || c == '\U{0B}' || c == '\U{0C}'
  }

  predicate AllWs(s: string) {
    forall i :: 0 <= i < |s| ==> IsWs(s[i])
  }

  /** Neither the first nor the last character is whitespace. */
  predicate NoEdgeWs(s: string) {
    s == [] || (!IsWs(s[0]) && !IsWs(s[|s| - 1]))
  }

  /** The non-whitespace characters of `s`, in order. */
  function NonWs(s: string): string
    decreases |s|
  {
    if s == [] then [] else (if IsWs(s[0]) then [] else [s[0]]) + NonWs(s[1..])
  }

  lemma {:induction false} NonWsAppend(a: string, b: string)
    ensures NonWs(a + b) == NonWs(a) + NonWs(b)
    decreases |a|
  {
    if a != [] {
      var head := if IsWs(a[0]) then [] else [a[0]];
      assert (a + b)[0] == a[0] && (a + b)[1..] == a[1..] + b;
      NonWsAppend(a[1..], b);
      calc {
        NonWs(a + b);
        head + NonWs(a[1..] + b);
        head + (NonWs(a[1..]) + NonWs(b));
        (head + NonWs(a[1..])) + NonWs(b);
      }
    } else {
      assert a + b == b;
    }
  }

  lemma {:induction false} NonWsOfBlank(a: string)
    requires AllWs(a)
    ensures NonWs(a) == []
    decreases |a|
  {
    if a != [] {
      assert IsWs(a[0]);
      NonWsOfBlank(a[1..]);
    }
  }

  /** The index of the first non-whitespace character of `s` at or after `i` (or `|s|`). */
  function SkipWsFrom(s: string, i: nat): (n: nat)
    requires i <= |s|
    ensures i <= n <= |s| && forall j :: i <= j < n ==> IsWs(s[j])
    ensures n < |s| ==> !IsWs(s[n])
    decreases |s| - i
  {
    if i < |s| && IsWs(s[i]) then SkipWsFrom(s, i + 1) else i
  }

  /** The number of whitespace characters at the start of `s`. */
  function LeadingWs(s: string): (n: nat)
    ensures n <= |s| && forall i :: 0 <= i < n ==> IsWs(s[i])
    ensures n < |s| ==> !IsWs(s[n])
  {
    SkipWsFrom(s, 0)
  }

  lemma AllWsAppend(a: string, b: string)
    requires AllWs(a) && AllWs(b)
    ensures AllWs(a + b)
  {
    forall i | 0 <= i < |a + b|
      ensures IsWs((a + b)[i])
    {
      if i < |a| {
        assert (a + b)[i] == a[i];
      } else {
        assert (a + b)[i] == b[i - |a|];
      }
    }
  }

  /** The index just after the last non-whitespace character of `s` before `j` (or 0). */
  function SkipWsBack(s: string, j: nat): (n: nat)
    requires j <= |s|
    ensures n <= j && forall i :: n <= i < j ==> IsWs(s[i])
    ensures n > 0 ==> !IsWs(s[n - 1])
    decreases j
  {
    if j > 0 && IsWs(s[j - 1]) then SkipWsBack(s, j - 1) else j
  }

  /** The number of whitespace characters at the end of `s`. */
  function TrailingWs(s: string): (n: nat)
    ensures n <= |s| && forall i :: |s| - n <= i < |s| ==> IsWs(s[i])
    ensures n < |s| ==> !IsWs(s[|s| - n - 1])
  {
    |s| - SkipWsBack(s, |s|)
  }

  lemma SuffixOfSuffix(s: string, a: nat, m: nat)
    requires a + m <= |s|
    ensures s[a..][m..] == s[a + m..]
  {
  }

  /**
   * JavaScript `trim`: the text between the leading and the trailing
   * whitespace, or "" when `s` is all whitespace.
   */
  function Trim(s: string): (r: string)
    ensures NoEdgeWs(r)
    ensures |r| <= |s|
  {
    var a := LeadingWs(s);
    if a == |s| then []
    else
      var n := TrailingWs(s);
      s[a..|s| - n]
  }

  /** `trim` cuts whitespace only: its result is a slice of `s` with only whitespace around it. */
  lemma TrimIsSlice(s: string) returns (a: nat)
    ensures a == LeadingWs(s)
    ensures a + |Trim(s)| <= |s| && Trim(s) == s[a..a + |Trim(s)|]
    ensures AllWs(s[..a]) && AllWs(s[a + |Trim(s)|..])
    ensures Trim(s) != [] ==> a + |Trim(s)| == |s| - TrailingWs(s)
  {
    a := LeadingWs(s);
    if a == |s| {
      assert s[a..] == [];
    }
  }

  lemma TrimKeepsTrimmed(s: string)
    requires NoEdgeWs(s)
    ensures Trim(s) == s
  {
    if s != [] {
      assert LeadingWs(s) == 0 && TrailingWs(s) == 0;
      assert s[0..|s|] == s;
    }
  }

  /** `trim` gives the empty string exactly for all-whitespace input. */
  lemma TrimEmptyIffBlank(s: string)
    ensures Trim(s) == [] <==> AllWs(s)
  {
    var a := LeadingWs(s);
    if a == |s| {
      assert s[..a] == s;
    }
  }

  /** `LeadingWs` is the only count with whitespace before it and none at it. */
  lemma LeadingWsIs(s: string, n: nat)
    requires n <= |s| && (forall i :: 0 <= i < n ==> IsWs(s[i])) && (n < |s| ==> !IsWs(s[n]))
    ensures LeadingWs(s) == n
  {
  }

  /** `TrailingWs` is the only count with whitespace after it and none just before it. */
  lemma TrailingWsIs(s: string, n: nat)
    requires n <= |s| && (forall i :: |s| - n <= i < |s| ==> IsWs(s[i])) && (n < |s| ==> !IsWs(s[|s| - n - 1]))
    ensures TrailingWs(s) == n
  {
  }

  /** `trim` of text wrapped in whitespace is the text, when that has no whitespace at its ends. */
  lemma TrimIs(s: string, p: string, m: string, q: string)
    requires s == p + m + q && AllWs(p) && AllWs(q) && NoEdgeWs(m)
    ensures Trim(s) == m
  {
    if m == [] {
      assert s == p + q;
      AllWsAppend(p, q);
      TrimEmptyIffBlank(s);
    } else {
      assert forall i :: 0 <= i < |p| ==> s[i] == p[i];
      assert s[|p|] == m[0];
      LeadingWsIs(s, |p|);
      assert forall i :: |s| - |q| <= i < |s| ==> s[i] == q[i - (|s| - |q|)];
      assert s[|s| - |q| - 1] == m[|m| - 1];
      TrailingWsIs(s, |q|);
      assert s[|p|..|s| - |q|] == m;
    }
  }

  /** In a string that is not all whitespace the leading and the trailing run do not meet. */
  lemma WsRunsApart(s: string)
    requires LeadingWs(s) < |s| || TrailingWs(s) < |s|
    ensures LeadingWs(s) + TrailingWs(s) < |s|
  {
    var n, b := LeadingWs(s), TrailingWs(s);
    assert n < |s| ==> !IsWs(s[n]);
    assert b < |s| ==> !IsWs(s[|s| - b - 1]);
  }

  /** Knowing both whitespace runs of a non-blank string gives its `trim`. */
  lemma TrimOfRuns(s: string, a: nat, b: nat)
    requires a == LeadingWs(s) < |s| && b == TrailingWs(s)
    ensures Trim(s) == s[a..|s| - b]
  {
  }

  /** Cutting part of the leading whitespace shortens the leading run by as much. */
  lemma LeadingWsDrop(s: string, k: nat)
    requires k <= LeadingWs(s)
    ensures LeadingWs(s[k..]) == LeadingWs(s) - k
  {
    var z := s[k..];
    assert forall i :: 0 <= i < |z| ==> z[i] == s[k + i];
    LeadingWsIs(z, LeadingWs(s) - k);
  }

  /** Cutting part of the leading whitespace of a non-blank string leaves its trailing run. */
  lemma TrailingWsDrop(s: string, k: nat)
    requires k <= LeadingWs(s) < |s|
    ensures TrailingWs(s[k..]) == TrailingWs(s)
  {
    WsRunsApart(s);
    var z, b := s[k..], TrailingWs(s);
    forall i | |z| - b <= i < |z|
      ensures IsWs(z[i])
    {
      assert z[i] == s[k + i];
    }
    assert z[|z| - b - 1] == s[|s| - b - 1];
    TrailingWsIs(z, b);
  }

  /** Cutting part of the trailing whitespace shortens the trailing run by as much. */
  lemma TrailingWsTake(s: string, k: nat)
    requires k <= TrailingWs(s)
    ensures TrailingWs(s[..|s| - k]) == TrailingWs(s) - k
  {
    var z := s[..|s| - k];
    assert forall i :: 0 <= i < |z| ==> z[i] == s[i];
    TrailingWsIs(z, TrailingWs(s) - k);
  }

  /** Cutting part of the trailing whitespace of a non-blank string leaves its leading run. */
  lemma LeadingWsTake(s: string, k: nat)
    requires k <= TrailingWs(s) < |s|
    ensures LeadingWs(s[..|s| - k]) == LeadingWs(s)
  {
    WsRunsApart(s);
    var z := s[..|s| - k];
    assert forall i :: 0 <= i < |z| ==> z[i] == s[i];
    LeadingWsIs(z, LeadingWs(s));
  }

  /** Cutting the leading whitespace first does not change `trim`. */
  lemma TrimDropsLeading(x: string)
    ensures Trim(x[LeadingWs(x)..]) == Trim(x)
  {
    var a := LeadingWs(x);
    var z := x[a..];
    if a == |x| {
      assert z == [];
    } else {
      var b := TrailingWs(x);
      WsRunsApart(x);
      TrimOfRuns(x, a, b);
      LeadingWsDrop(x, a);
      TrailingWsDrop(x, a);
      TrimOfRuns(z, 0, b);
      assert z[0..|z| - b] == x[a..|x| - b];
    }
  }

  /** Cutting the trailing whitespace first does not change `trim`. */
  lemma TrimDropsTrailing(y: string)
    ensures Trim(y[..|y| - TrailingWs(y)]) == Trim(y)
  {
    var b := TrailingWs(y);
    var z := y[..|y| - b];
    if b == |y| {
      assert z == [];
      LeadingWsIs(y, |y|);
    } else {
      var a := LeadingWs(y);
      WsRunsApart(y);
      TrimOfRuns(y, a, b);
      LeadingWsTake(y, b);
      TrailingWsTake(y, b);
      TrimOfRuns(z, a, 0);
      assert z[a..|z|] == y[a..|y| - b];
    }
  }

  /** A non-whitespace character after `x` ends the leading run within `x`. */
  lemma LeadingWsAround(x: string, c: char, y: string)
    requires !IsWs(c)
    ensures LeadingWs(x + [c] + y) == LeadingWs(x)
  {
    var s, a := x + [c] + y, LeadingWs(x);
    assert forall i :: 0 <= i < |x| ==> s[i] == x[i];
    assert s[|x|] == c;
    LeadingWsIs(s, a);
  }

  /** A non-whitespace character before `y` ends the trailing run within `y`. */
  lemma TrailingWsAround(x: string, c: char, y: string)
    requires !IsWs(c)
    ensures TrailingWs(x + [c] + y) == TrailingWs(y)
  {
    var s, b := x + [c] + y, TrailingWs(y);
    assert forall i :: |x| < i < |s| ==> s[i] == y[i - |x| - 1];
    assert s[|x|] == c;
    TrailingWsIs(s, b);
  }

  /** A slice of `x + [c] + y` that spans `c` is a suffix of `x`, `c` and a prefix of `y`. */
  lemma SliceAround(x: string, c: char, y: string, a: nat, b: nat)
    requires a <= |x| && b <= |y|
    ensures (x + [c] + y)[a..|x| + 1 + |y| - b] == x[a..] + [c] + y[..|y| - b]
  {
    var s := x + [c] + y;
    assert s[a..|s| - b] == s[a..|x|] + [c] + s[|x| + 1..|s| - b];
    assert s[a..|x|] == x[a..];
    assert s[|x| + 1..|s| - b] == y[..|y| - b];
  }

  /** Cutting the trailing whitespace of `x`, a non-whitespace character, and `y` cuts it from `y`. */
  lemma DropTrailingAround(x: string, c: char, y: string)
    requires !IsWs(c)
    ensures var s := x + [c] + y; s[..|s| - TrailingWs(s)] == x + [c] + y[..|y| - TrailingWs(y)]
  {
    TrailingWsAround(x, c, y);
    SliceAround(x, c, y, 0, TrailingWs(y));
    assert x[0..] == x;
  }

  /** `trim` of `x`, a non-whitespace character, and `y` cuts only the outer ends of `x` and `y`. */
  lemma TrimAround(x: string, c: char, y: string)
    requires !IsWs(c)
    ensures Trim(x + [c] + y) == x[LeadingWs(x)..] + [c] + y[..|y| - TrailingWs(y)]
  {
    var s, a, b := x + [c] + y, LeadingWs(x), TrailingWs(y);
    LeadingWsAround(x, c, y);
    TrailingWsAround(x, c, y);
    TrimOfRuns(s, a, b);
    SliceAround(x, c, y, a, b);
  }


  /** A character that does not occur in `s` does not occur in `trim(s)`. */
  lemma TrimKeepsAbsent(s: string, c: char)
    requires c !in s
    ensures c !in Trim(s)
  {
    var a := TrimIsSlice(s);
    assert forall i :: 0 <= i < |Trim(s)| ==> Trim(s)[i] == s[a + i];
  }

  /** `trim` removes whitespace only. */
  lemma TrimKeepsText(s: string)
    ensures NonWs(Trim(s)) == NonWs(s)
  {
    var r := Trim(s);
    var a := TrimIsSlice(s);
    var before, after := s[..a], s[a + |r|..];
    assert s == before + r + after;
    NonWsAppend(before + r, after);
    NonWsAppend(before, r);
    NonWsOfBlank(before);
    NonWsOfBlank(after);
  }

  /** The pieces joined with `sep` between them. */
  function Join(parts: seq<string>, sep: string): string
    decreases |parts|
  {
    if parts == [] then ""
    else if |parts| == 1 then parts[0]
    else parts[0] + sep + Join(parts[1..], sep)
  }

  /**
   * JavaScript `s.split(c)` for a one-character separator: the maximal pieces
   * free of `c`, one more than there are occurrences of `c`.
   */
  function Split(s: string, c: char): (parts: seq<string>)
    ensures |parts| >= 1
    ensures forall k :: 0 <= k < |parts| ==> c !in parts[k]
    ensures c in s <==> |parts| >= 2
    decreases |s|
  {
    if s == [] then [""]
    else
      var rest := Split(s[1..], c);
      if s[0] == c then [""] + rest
      else
        assert c in s <==> c in s[1..];
        [[s[0]] + rest[0]] + rest[1..]
  }

  /** Every character of a piece comes from the string that was split. */
  lemma {:induction false} SplitPiecesFromString(s: string, c: char)
    ensures forall k, x :: 0 <= k < |Split(s, c)| && x in Split(s, c)[k] ==> x in s
    decreases |s|
  {
    if s != [] {
      SplitPiecesFromString(s[1..], c);
      assert forall x :: x in s[1..] ==> x in s;
    }
  }

  /** JavaScript `s.replace(/c/g, rep)`: every `c` is replaced by `rep`. */
  function ReplaceAll(s: string, c: char, rep: string): (r: string)
    ensures c !in rep ==> c !in r
    decreases |s|
  {
    if s == [] then []
    else
      var head := if s[0] == c then rep else [s[0]];
      var rest := ReplaceAll(s[1..], c, rep);
      assert c !in rep ==> c !in head && c !in rest;
      head + rest
  }

  /** A character absent from the input and from the replacement is absent from the result. */
  lemma {:induction false} ReplaceAllKeepsAbsent(s: string, c: char, rep: string, x: char)
    requires x !in s && x !in rep
    ensures x !in ReplaceAll(s, c, rep)
    decreases |s|
  {
    if s != [] {
      ReplaceAllKeepsAbsent(s[1..], c, rep, x);
    }
  }

  lemma {:induction false} ReplaceAllAppend(a: string, b: string, c: char, rep: string)
    ensures ReplaceAll(a + b, c, rep) == ReplaceAll(a, c, rep) + ReplaceAll(b, c, rep)
    decreases |a|
  {
    if a != [] {
      var head := if a[0] == c then rep else [a[0]];
      assert (a + b)[0] == a[0] && (a + b)[1..] == a[1..] + b;
      ReplaceAllAppend(a[1..], b, c, rep);
      calc {
        ReplaceAll(a + b, c, rep);
        head + ReplaceAll(a[1..] + b, c, rep);
        head + (ReplaceAll(a[1..], c, rep) + ReplaceAll(b, c, rep));
        (head + ReplaceAll(a[1..], c, rep)) + ReplaceAll(b, c, rep);
      }
    } else {
      assert a + b == b;
    }
  }

  lemma {:induction false} ReplaceAllAbsent(s: string, c: char, rep: string)
    requires c !in s
    ensures ReplaceAll(s, c, rep) == s
    decreases |s|
  {
    if s != [] {
      ReplaceAllAbsent(s[1..], c, rep);
    }
  }

  lemma {:induction false} JoinPrependToFirst(a: string, parts: seq<string>, sep: string)
    requires |parts| >= 1
    ensures Join([a + parts[0]] + parts[1..], sep) == a + Join(parts, sep)
  {
    var ps := [a + parts[0]] + parts[1..];
    if |parts| > 1 {
      assert ps[1..] == parts[1..];
    }
  }

  /** Replacing every `c` by `rep` is splitting at `c` and joining with `rep`. */
  lemma {:induction false} ReplaceAllIsJoinOfSplit(s: string, c: char, rep: string)
    ensures ReplaceAll(s, c, rep) == Join(Split(s, c), rep)
    decreases |s|
  {
    if s != [] {
      var rest := Split(s[1..], c);
      ReplaceAllIsJoinOfSplit(s[1..], c, rep);
      if s[0] == c {
        assert ([""] + rest)[1..] == rest;
      } else {
        JoinPrependToFirst([s[0]], rest, rep);
      }
    }
  }

  /** Joining the pieces of a split with the separator gives the string back. */
  lemma SplitThenJoin(s: string, c: char)
    ensures Join(Split(s, c), [c]) == s
  {
    ReplaceAllIsJoinOfSplit(s, c, [c]);
    ReplaceAllWithItself(s, c);
  }

  lemma {:induction false} ReplaceAllWithItself(s: string, c: char)
    ensures ReplaceAll(s, c, [c]) == s
    decreases |s|
  {
    if s != [] {
      ReplaceAllWithItself(s[1..], c);
    }
  }

  lemma {:induction false} SplitWithoutSeparator(s: string, c: char)
    requires c !in s
    ensures Split(s, c) == [s]
    decreases |s|
  {
    if s != [] {
      SplitWithoutSeparator(s[1..], c);
      assert [s[0]] + s[1..] == s;
    }
  }

  /** A separator-free piece followed by the separator splits off as the first piece. */
  lemma {:induction false} SplitAfterPiece(x: string, y: string, c: char)
    requires c !in x
    ensures Split(x + [c] + y, c) == [x] + Split(y, c)
    decreases |x|
  {
    if x != [] {
      assert (x + [c] + y)[1..] == x[1..] + [c] + y;
      SplitAfterPiece(x[1..], y, c);
      assert [x[0]] + x[1..] == x;
    } else {
      assert (x + [c] + y)[1..] == y;
    }
  }

  /** Splitting pieces free of the separator after joining them with it gives them back. */
  lemma {:induction false} JoinThenSplit(parts: seq<string>, c: char)
    requires |parts| >= 1
    requires forall k :: 0 <= k < |parts| ==> c !in parts[k]
    ensures Split(Join(parts, [c]), c) == parts
    decreases |parts|
  {
    if |parts| == 1 {
      SplitWithoutSeparator(parts[0], c);
    } else {
      JoinThenSplit(parts[1..], c);
      SplitAfterPiece(parts[0], Join(parts[1..], [c]), c);
      assert [parts[0]] + parts[1..] == parts;
    }
  }

  /** A trailing separator adds an empty last piece. */
  lemma {:induction false} SplitTrailingSeparator(y: string, c: char)
    ensures Split(y + [c], c) == Split(y, c) + [""]
    decreases |y|
  {
    if y == [] {
      assert [c][1..] == [];
    } else {
      assert (y + [c])[1..] == y[1..] + [c];
      SplitTrailingSeparator(y[1..], c);
    }
  }

  /** `s` occurs in `t` starting at index `i`. */
  predicate OccursAt(s: string, t: string, i: int) {
    0 <= i && i + |s| <= |t| && t[i..i + |s|] == s
  }

  /** JavaScript `t.indexOf(s)`: the leftmost occurrence of `s` in `t`, or -1. */
  function IndexOf(s: string, t: string): (r: int)
    ensures -1 <= r
    ensures r >= 0 <==> exists i :: OccursAt(s, t, i)
    ensures r >= 0 ==> OccursAt(s, t, r) && forall i :: 0 <= i < r ==> !OccursAt(s, t, i)
    decreases |t|
  {
    if |s| > |t| then -1
    else if t[..|s|] == s then assert OccursAt(s, t, 0); 0
    else
      var r := IndexOf(s, t[1..]);
      assert forall i :: 1 <= i ==> (OccursAt(s, t, i) <==> OccursAt(s, t[1..], i - 1));
      assert !OccursAt(s, t, 0);
      if r < 0 then -1 else assert OccursAt(s, t, r + 1); r + 1
  }
}
