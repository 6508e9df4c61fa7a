/**
 * Dark-mode detection of ArticleSummary.js. The configured selector is either
 * `attr` (the root element has that attribute) or `attr=value` (the root
 * element's attribute equals the value, with all quotes removed from it).
 * The root element's attributes are a map from name to value.
 */
module DarkMode {
  import opened Wrappers
  import opened Text

  function StripQuotes(s: string): (r: string)
    ensures '\'' !in r && '"' !in r
  {
    ReplaceAllKeepsAbsent(ReplaceAll(s, '\'', ""), '"', "", '\'');
    ReplaceAll(ReplaceAll(s, '\'', ""), '"', "")
  }

  /** Lines 112-118: what a non-empty trimmed selector says about the root element. */
  function SelectorHolds(s: string, root: map<string, string>): (r: bool)
    ensures r ==> WatchedName(s) in root
  {
    if '=' in s then
      var parts := Split(s, '=');
      var attr := Trim(parts[0]);
      var value := StripQuotes(Trim(parts[1]));
      attr in root && root[attr] == value
    else
      s in root
  }

  /** `detectDarkMode`; an unset or empty selector is never dark. */
  function DetectDarkMode(selector: Option<string>, root: map<string, string>): (r: bool)
    ensures r ==> ObservedAttribute(selector).Some? && ObservedAttribute(selector).value in root
  {
    match selector
    case None => false
    case Some(raw) =>
      if raw == "" then false
      else
        var s := Trim(raw);
        if s == "" then false else SelectorHolds(s, root)
  }

  /** Lines 131-133: the attribute name the observer filters on, for a non-empty trimmed selector. */
  function WatchedName(s: string): (n: string)
    ensures '=' !in n
    ensures NoEdgeWs(s) ==> NoEdgeWs(n)
  {
    if '=' in s then
      var parts := Split(s, '=');
      TrimKeepsAbsent(parts[0], '=');
      Trim(parts[0])
    else s
  }

  /**
   * The attribute the observer is set up to watch: `observeDarkMode` runs only
   * for a non-empty selector and returns early when its trimmed form is empty.
   */
  function ObservedAttribute(selector: Option<string>): (r: Option<string>)
    ensures r.None? <==> selector.None? || AllWs(selector.value)
    ensures r.Some? ==> '=' !in r.value && NoEdgeWs(r.value)
  {
    match selector
    case None => None
    case Some(raw) =>
      TrimEmptyIffBlank(raw);
      if raw == "" then None
      else
        var s := Trim(raw);
        if s == "" then None else Some(WatchedName(s))
  }

  /** A selector that is absent or all whitespace is not dark, and nothing is observed. */
  lemma BlankSelectorIsNotDark(selector: Option<string>, root: map<string, string>)
    requires selector.None? || AllWs(selector.value)
    ensures !DetectDarkMode(selector, root)
    ensures ObservedAttribute(selector) == None
  {
    if selector.Some? {
      TrimEmptyIffBlank(selector.value);
    }
  }

  /**
   * Detection reads only the observed attribute: two roots that agree on it
   * give the same answer, and without an observed attribute it is never dark.
   */
  lemma DetectReadsObservedAttribute(selector: Option<string>, root1: map<string, string>, root2: map<string, string>)
    ensures ObservedAttribute(selector) == None ==> !DetectDarkMode(selector, root1)
    ensures ObservedAttribute(selector).Some? ==>
      var name := ObservedAttribute(selector).value;
      (name in root1 <==> name in root2) && (name in root1 ==> root1[name] == root2[name]) ==>
      DetectDarkMode(selector, root1) == DetectDarkMode(selector, root2)
  {
  }

  /** An absent attribute is never dark. */
  lemma AbsentAttributeIsNotDark(selector: Option<string>, root: map<string, string>)
    requires ObservedAttribute(selector).Some? && ObservedAttribute(selector).value !in root
    ensures !DetectDarkMode(selector, root)
  {
  }

  /** The presence form: a selector without `=` is dark iff the attribute exists, whatever its value. */
  lemma PresenceForm(raw: string, name: string, root: map<string, string>)
    requires Trim(raw) == name && name != "" && '=' !in name
    ensures DetectDarkMode(Some(raw), root) <==> name in root
    ensures ObservedAttribute(Some(raw)) == Some(name)
  {
  }

  /** A quote mark, or nothing. */
  predicate IsQuote(q: string) {
    q == "" || q == "'" || q == "\""
  }

  lemma ReplaceAllAroundAbsent(q: string, value: string, c: char)
    requires c !in value
    ensures ReplaceAll(q + value + q, c, "") == ReplaceAll(q, c, "") + value + ReplaceAll(q, c, "")
  {
    ReplaceAllAppend(q + value, q, c, "");
    ReplaceAllAppend(q, value, c, "");
    ReplaceAllAbsent(value, c, "");
  }

  lemma StripQuotesOfQuoted(q: string, value: string)
    requires IsQuote(q) && '\'' !in value && '"' !in value
    ensures StripQuotes(q + value + q) == value
  {
    ReplaceAllAroundAbsent(q, value, '\'');
    var p := ReplaceAll(q, '\'', "");
    ReplaceAllAroundAbsent(p, value, '"');
    assert p == "" || p == "\"";
    assert ReplaceAll(p, '"', "") == "";
  }

  lemma SelectorTrimmed(name: string, rest: string)
    requires name != "" && NoEdgeWs(name) && NoEdgeWs(rest)
    ensures Trim(name + "=" + rest) == name + "=" + rest
  {
    var sel := name + "=" + rest;
    assert sel[0] == name[0];
    assert sel[|sel| - 1] == if rest == [] then '=' else rest[|rest| - 1];
    TrimKeepsTrimmed(sel);
  }

  lemma SplitSelector(name: string, rest: string)
    requires '=' !in name && '=' !in rest
    ensures '=' in name + "=" + rest
    ensures Split(name + "=" + rest, '=') == [name, rest]
  {
    var sel := name + "=" + rest;
    assert sel[|name|] == '=';
    assert sel == name + ['='] + rest;
    SplitAfterPiece(name, rest, '=');
    SplitWithoutSeparator(rest, '=');
  }

  lemma HoldsForParts(name: string, rest: string, root: map<string, string>)
    requires NoEdgeWs(name) && '=' !in name
    requires NoEdgeWs(rest) && '=' !in rest
    ensures SelectorHolds(name + "=" + rest, root) <==> name in root && root[name] == StripQuotes(rest)
    ensures WatchedName(name + "=" + rest) == name
  {
    SplitSelector(name, rest);
    TrimKeepsTrimmed(name);
    TrimKeepsTrimmed(rest);
  }

  /** The equality form with the value part `rest` left as written. */
  lemma EqualityFormParts(name: string, rest: string, root: map<string, string>)
    requires name != "" && NoEdgeWs(name) && '=' !in name
    requires NoEdgeWs(rest) && '=' !in rest
    ensures DetectDarkMode(Some(name + "=" + rest), root) <==>
      name in root && root[name] == StripQuotes(rest)
    ensures ObservedAttribute(Some(name + "=" + rest)) == Some(name)
  {
    SelectorTrimmed(name, rest);
    HoldsForParts(name, rest, root);
  }

  /**
   * The equality form, built from its parts: `name=value`, `name='value'` or
   * `name="value"` is dark iff the attribute exists and equals `value`, and the
   * observer watches `name`.
   */
  lemma EqualityForm(name: string, q: string, value: string, root: map<string, string>)
    requires name != "" && NoEdgeWs(name) && '=' !in name
    requires IsQuote(q) && NoEdgeWs(value) && '=' !in value && '\'' !in value && '"' !in value
    ensures DetectDarkMode(Some(name + "=" + q + value + q), root) <==> name in root && root[name] == value
    ensures ObservedAttribute(Some(name + "=" + q + value + q)) == Some(name)
  {
    var rest := q + value + q;
    assert name + "=" + q + value + q == name + "=" + rest;
    if q != "" {
      assert rest[0] == q[0] && rest[|rest| - 1] == q[0];
    } else {
      assert rest == value;
    }
    assert '=' !in rest;
    EqualityFormParts(name, rest, root);
    StripQuotesOfQuoted(q, value);
  }

  lemma SplitThreePieces(name: string, rest: string, tail: string)
    requires '=' !in name && '=' !in rest
    ensures '=' in name + "=" + (rest + "=" + tail)
    ensures var parts := Split(name + "=" + (rest + "=" + tail), '=');
      |parts| >= 2 && parts[0] == name && parts[1] == rest
  {
    var sel := name + "=" + (rest + "=" + tail);
    assert sel[|name|] == '=';
    SplitAfterPiece(name, rest + ['='] + tail, '=');
    SplitAfterPiece(rest, tail, '=');
  }

  /** A character absent from a string is absent from each of its slices. */
  lemma AbsentFromSlice(s: string, c: char, i: nat, j: nat)
    requires c !in s && i <= j <= |s|
    ensures c !in s[i..j]
  {
    assert forall k :: 0 <= k < j - i ==> s[i..j][k] == s[i + k];
  }

  /**
   * The trimmed selector `name=more`, with the `=` kept: only the start of
   * `name` and the end of `more` lose whitespace, and the name part keeps no `=`.
   */
  lemma TrimmedSelector(name: string, more: string) returns (x: string, y: string)
    requires '=' !in name
    ensures x == name[LeadingWs(name)..] && y == more[..|more| - TrailingWs(more)]
    ensures Trim(name + "=" + more) == x + "=" + y
    ensures '=' !in x && Trim(x) == Trim(name)
  {
    x, y := name[LeadingWs(name)..], more[..|more| - TrailingWs(more)];
    assert name + "=" + more == name + ['='] + more;
    TrimAround(name, '=', more);
    AbsentFromSlice(name, '=', LeadingWs(name), |name|);
    TrimDropsLeading(name);
  }

  /** The trimmed selector `name=rest`: two `=`-free pieces that trim as `name` and `rest` do. */
  lemma TrimmedTwoPieces(name: string, rest: string) returns (x: string, y: string)
    requires '=' !in name && '=' !in rest
    ensures Trim(name + "=" + rest) == x + "=" + y
    ensures '=' !in x && Trim(x) == Trim(name)
    ensures '=' !in y && Trim(y) == Trim(rest)
  {
    x, y := TrimmedSelector(name, rest);
    AbsentFromSlice(rest, '=', 0, |rest| - TrailingWs(rest));
    assert y == rest[0..|rest| - TrailingWs(rest)];
    TrimDropsTrailing(rest);
  }

  /**
   * The equality form as configured, with any spacing: `name=rest` is dark iff
   * the trimmed `name` is an attribute whose value is the trimmed `rest` with
   * its quotes removed, and the observer watches the trimmed `name`.
   */
  lemma EqualityFormPadded(name: string, rest: string, root: map<string, string>)
    requires '=' !in name && '=' !in rest
    ensures DetectDarkMode(Some(name + "=" + rest), root) <==>
      Trim(name) in root && root[Trim(name)] == StripQuotes(Trim(rest))
    ensures ObservedAttribute(Some(name + "=" + rest)) == Some(Trim(name))
  {
    var x, y := TrimmedTwoPieces(name, rest);
    SplitSelector(x, y);
  }

  /** The trimmed selector `name=rest=tail`: the second `=` and what precedes it in `rest` are kept. */
  lemma TrimmedThreePieces(name: string, rest: string, tail: string) returns (x: string, t: string)
    requires '=' !in name && '=' !in rest
    ensures Trim(name + "=" + rest + "=" + tail) == x + "=" + (rest + "=" + t)
    ensures '=' !in x && Trim(x) == Trim(name)
  {
    var more := rest + "=" + tail;
    assert name + "=" + rest + "=" + tail == name + "=" + more;
    var y;
    x, y := TrimmedSelector(name, more);
    DropTrailingAround(rest, '=', tail);
    t := tail[..|tail| - TrailingWs(tail)];
  }

  /**
   * Everything after a second `=` is ignored: only the first two pieces of the
   * split are read, whatever follows and however the selector is spaced.
   */
  lemma ExtraPiecesIgnored(name: string, rest: string, tail: string, root: map<string, string>)
    requires '=' !in name && '=' !in rest
    ensures DetectDarkMode(Some(name + "=" + rest + "=" + tail), root) <==>
      Trim(name) in root && root[Trim(name)] == StripQuotes(Trim(rest))
    ensures ObservedAttribute(Some(name + "=" + rest + "=" + tail)) == Some(Trim(name))
  {
    var x, t := TrimmedThreePieces(name, rest, tail);
    SplitThreePieces(x, rest, t);
  }

  /** `data-theme=dark` is dark exactly when `data-theme` is `dark`; `light` or absent is not. */
  lemma DataThemeDark(root: map<string, string>)
    ensures DetectDarkMode(Some("data-theme=dark"), root) <==>
      "data-theme" in root && root["data-theme"] == "dark"
  {
    assert "data-theme=dark" == "data-theme" + "=" + "" + "dark" + "";
    EqualityForm("data-theme", "", "dark", root);
  }
}
