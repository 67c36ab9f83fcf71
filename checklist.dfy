/**
 * The checklist loader: reading the markdown table of the 112% checklist into
 * entries (`parse_found`, `extract_url`, `clean_text`, `parse_markdown_table`)
 * and numbering them into rows of the `hk` table (`create_database`).
 * The file is given as its lines; reading it and writing the database are not modelled.
 */
module Checklist {
  import opened Wrappers
  import opened Text
  import opened Catalog

  /** One parsed row of the checklist, before it is given an id. */
  datatype Entry = Entry(
    found: bool,
    locationUrl: Option<string>,
    name: string,
    category: string,
    region: string,
    information: string)

  /** The index of the first `c` in `s` at or after `from`, or `|s|` when there is none. */
  function FindChar(s: string, c: char, from: nat): (k: nat)
    requires from <= |s|
    ensures from <= k <= |s|
    ensures k < |s| ==> s[k] == c
    ensures forall m :: from <= m < k ==> s[m] != c
    decreases |s| - from
  {
    if from == |s| || s[from] == c then from else FindChar(s, c, from + 1)
  }

  // ---------------------------------------------------------------------------
  // parse_found
  // ---------------------------------------------------------------------------

  /** A cell marks its item as found when `**X**` or `**x**` occurs anywhere in it. */
  function ParseFound(cell: string): (r: bool)
    ensures r <==> exists i :: OccursAt(cell, "**X**", i) || OccursAt(cell, "**x**", i)
  {
    ContainsIff(cell, "**X**");
    ContainsIff(cell, "**x**");
    Contains(cell, "**X**") || Contains(cell, "**x**")
  }

  // ---------------------------------------------------------------------------
  // extract_url: re.search(r'\[.*?\]\((https?://[^)]+)\)', cell)
  // ---------------------------------------------------------------------------

  /** The length of the `http://` or `https://` scheme `t` starts with, or 0 when it starts with neither. */
  function SchemeLength(t: string): (n: nat)
    ensures n == 0 || n == 7 || n == 8
    ensures n > 0 ==> n <= |t| && forall m :: 0 <= m < n ==> t[m] != ')'
  {
    if StartsWith(t, "https://") then
      assert forall m :: 0 <= m < 8 ==> t[m] == "https://"[m];
      8
    else if StartsWith(t, "http://") then
      assert forall m :: 0 <= m < 7 ==> t[m] == "http://"[m];
      7
    else 0
  }

  /** An `http://` or `https://` address with something after the scheme and no `)`. */
  predicate IsLinkUrl(u: string) {
    && 0 < SchemeLength(u) < |u|
    && forall m :: 0 <= m < |u| ==> u[m] != ')'
  }

  /** No line break strictly between `b` and `j`: what `.` may span. */
  predicate NoBreak(s: string, b: int, j: int) {
    forall m :: b < m < j && 0 <= m < |s| ==> s[m] != '\n'
  }

  /** The group `https?://[^)]+` starting at `k` and closed by `)`, if it is there. */
  function UrlAt(s: string, k: nat): (u: Option<string>)
    requires k <= |s|
    ensures u.Some? ==> IsLinkUrl(u.value) && k + |u.value| < |s|
                        && s[k..k + |u.value|] == u.value && s[k + |u.value|] == ')'
  {
    var n := SchemeLength(s[k..]);
    if n == 0 then None
    else
      var e := FindChar(s, ')', k + n);
      if e == k + n || e == |s| then None
      else
        var u := s[k..e];
        assert u[..8] == s[k..][..8] || u[..7] == s[k..][..7] by {
          if n == 8 { assert u[..8] == s[k..k + 8] == s[k..][..8]; }
          else { assert u[..7] == s[k..k + 7] == s[k..][..7]; }
        }
        assert SchemeLength(u) == n;
        assert forall m :: 0 <= m < |u| ==> u[m] == s[k + m];
        Some(u)
  }

  /** What follows the `]` at `j`: `(`, a URL, `)`. */
  function TargetAt(s: string, j: nat): Option<string> {
    if j + 2 <= |s| && s[j] == ']' && s[j + 1] == '(' then UrlAt(s, j + 2) else None
  }

  /**
   * The pattern matches with its `[` at `b` and its `]` at `j`: `.*?` spans the
   * characters in between, none of them a line break.
   */
  predicate LinkMatch(s: string, b: int, j: int) {
    && 0 <= b < j < |s|
    && s[b] == '['
    && NoBreak(s, b, j)
    && TargetAt(s, j).Some?
  }

  /** The lazy `.*?`: the first `]` at or after `j` that completes a match for the `[` at `b`. */
  function FirstCloseAfter(s: string, b: nat, j: nat): (r: Option<nat>)
    requires b < j <= |s| && s[b] == '['
    requires NoBreak(s, b, j)
    ensures r.Some? ==> j <= r.value && LinkMatch(s, b, r.value)
                        && forall j' :: j <= j' < r.value ==> !LinkMatch(s, b, j')
    ensures r.None? ==> forall j' :: j <= j' ==> !LinkMatch(s, b, j')
    decreases |s| - j
  {
    if j == |s| then None
    else if s[j] == '\n' then
      None
    else if TargetAt(s, j).Some? then Some(j)
    else FirstCloseAfter(s, b, j + 1)
  }

  /** The leftmost match at or after `from`, as `re.search` finds it. */
  function FirstLinkMatch(s: string, from: nat): (r: Option<(nat, nat)>)
    requires from <= |s|
    ensures r.Some? ==>
      && from <= r.value.0 && LinkMatch(s, r.value.0, r.value.1)
      && forall b, j :: from <= b && LinkMatch(s, b, j) ==>
           r.value.0 < b || (r.value.0 == b && r.value.1 <= j)
    ensures r.None? ==> forall b, j :: from <= b ==> !LinkMatch(s, b, j)
    decreases |s| - from
  {
    if from == |s| then None
    else if s[from] == '[' && FirstCloseAfter(s, from, from + 1).Some? then
      Some((from, FirstCloseAfter(s, from, from + 1).value))
    else FirstLinkMatch(s, from + 1)
  }

  /**
   * The URL of the leftmost markdown link in the cell: None exactly when the
   * pattern matches nowhere, otherwise the URL of the leftmost match, taking
   * the first `]` that completes it.
   */
  function ExtractUrl(cell: string): (r: Option<string>)
    ensures r.None? <==> forall b, j :: !LinkMatch(cell, b, j)
    ensures r.Some? ==> exists b, j ::
      && LinkMatch(cell, b, j) && r == TargetAt(cell, j)
      && forall b', j' :: LinkMatch(cell, b', j') ==> b < b' || (b == b' && j <= j')
  {
    match FirstLinkMatch(cell, 0)
    case None => None
    case Some((b, j)) => TargetAt(cell, j)
  }

  /** A target is an `http(s)://` address written between `](` and `)`. */
  lemma TargetShape(s: string, j: nat)
    requires TargetAt(s, j).Some?
    ensures IsLinkUrl(TargetAt(s, j).value)
    ensures OccursAt(s, "](" + TargetAt(s, j).value + ")", j)
  {
    var u := TargetAt(s, j).value;
    var e := j + 2 + |u|;
    assert s[j..e + 1] == [s[j], s[j + 1]] + s[j + 2..e] + [s[e]];
  }

  /** Any URL extracted is an `http(s)://` address without `)`, found in the cell after `](` and before `)`. */
  lemma ExtractUrlShape(cell: string)
    requires ExtractUrl(cell).Some?
    ensures IsLinkUrl(ExtractUrl(cell).value)
    ensures exists i :: OccursAt(cell, "](" + ExtractUrl(cell).value + ")", i)
  {
    TargetShape(cell, FirstLinkMatch(cell, 0).value.1);
  }

  /** A URL followed by `)` at `k` is read whole. */
  lemma UrlAtOf(s: string, k: nat, url: string)
    requires IsLinkUrl(url)
    requires k + |url| < |s| && s[k..k + |url|] == url && s[k + |url|] == ')'
    ensures UrlAt(s, k) == Some(url)
  {
    var t := s[k..];
    assert t[..8] == url[..8] && t[..7] == url[..7];
    assert SchemeLength(t) == SchemeLength(url);
    var n := SchemeLength(url);
    assert forall m :: k + n <= m < k + |url| ==> s[m] == url[m - k];
    assert FindChar(s, ')', k + n) == k + |url|;
  }

  /** A cell that is exactly one link `[text](url)` yields `url` (documents `extract_url` on a typical cell; no proof here uses it). */
  lemma ExtractUrlOfLink(text: string, url: string)
    requires ']' !in text && '\n' !in text
    requires IsLinkUrl(url)
    ensures ExtractUrl("[" + text + "](" + url + ")") == Some(url)
  {
    var s := "[" + text + "](" + url + ")";
    var j := |text| + 1;
    LinkCell(text, url);
    var r := FirstLinkMatch(s, 0).value;
    assert r.0 == 0 && r.1 == j;
  }

  /** The one-link cell: its `[` at 0 matches with the `]` right after the text, and no `]` comes earlier. */
  lemma LinkCell(text: string, url: string)
    requires ']' !in text && '\n' !in text
    requires IsLinkUrl(url)
    ensures var s := "[" + text + "](" + url + ")";
      && LinkMatch(s, 0, |text| + 1) && TargetAt(s, |text| + 1) == Some(url)
      && forall m :: 0 < m <= |text| ==> s[m] != ']'
  {
    var s := "[" + text + "](" + url + ")";
    var j := |text| + 1;
    LinkCellChars(text, url);
    UrlAtOf(s, j + 2, url);
    assert TargetAt(s, j) == Some(url);
    assert NoBreak(s, 0, j);
  }

  lemma LinkCellChars(text: string, url: string)
    ensures var s, j := "[" + text + "](" + url + ")", |text| + 1;
      && |s| == j + |url| + 3 && s[0] == '[' && s[j] == ']' && s[j + 1] == '('
      && (forall m :: 0 < m < j ==> s[m] == text[m - 1])
      && s[j + 2..j + 2 + |url|] == url && s[j + 2 + |url|] == ')'
  {
    var s, j := "[" + text + "](" + url + ")", |text| + 1;
    assert s == ("[" + text) + ("](" + url + ")");
    assert s[j + 2..j + 2 + |url|] == url;
  }

  // ---------------------------------------------------------------------------
  // clean_text
  // ---------------------------------------------------------------------------

  /**
   * The link `\[([^\]]*)\]\([^)]+\)` starting at the head of `s`: its `]` at `k`
   * and its `)` at `e`.
   */
  predicate LinkSpan(s: string, k: int, e: int) {
    && 0 < k && k + 2 < e < |s|
    && s[0] == '[' && s[k] == ']' && s[k + 1] == '(' && s[e] == ')'
    && (forall m :: 0 < m < k ==> s[m] != ']')
    && (forall m :: k + 2 <= m < e ==> s[m] != ')')
  }

  /** Where the link at the head of `s` ends, if one starts there; there is at most one. */
  function LinkAt(s: string): (r: Option<(nat, nat)>)
    ensures r.Some? ==> LinkSpan(s, r.value.0, r.value.1)
    ensures r.None? ==> forall k, e :: !LinkSpan(s, k, e)
  {
    if s != [] && s[0] == '[' then
      var k := FindChar(s, ']', 1);
      if k + 1 < |s| && s[k + 1] == '(' then
        var e := FindChar(s, ')', k + 2);
        if k + 2 < e < |s| then Some((k, e)) else None
      else None
    else None
  }

  /** `re.sub(r'\[([^\]]*)\]\([^)]+\)', r'\1', s)`: each link is replaced by its text, left to right. */
  function StripLinks(s: string): (r: string)
    ensures |r| <= |s|
  {
    if s == [] then []
    else match LinkAt(s)
      case Some((k, e)) => s[1..k] + StripLinks(s[e + 1..])
      case None => [s[0]] + StripLinks(s[1..])
  }

  /** A run of `d` asterisks. */
  function Stars(d: nat): string {
    seq(d, _ => '*')
  }

  /** The marker pair of `d` asterisks (`\*\*([^*]+)\*\*` or `\*([^*]+)\*`) at the head of `s`; its closing run starts at `k`. */
  predicate StarSpan(s: string, d: nat, k: int) {
    && d < k && k + d <= |s|
    && s[..d] == Stars(d) && s[k..k + d] == Stars(d)
    && (forall m :: d <= m < k ==> s[m] != '*')
  }

  /** The closing run of a marked span is the first asterisk after the opening one. */
  lemma StarSpanClose(s: string, d: nat, k: nat)
    requires d == 1 || d == 2
    requires StarSpan(s, d, k)
    ensures FindChar(s, '*', d) == k
  {
    assert s[k] == s[k..k + d][0];
  }

  function StarsAt(s: string, d: nat): (r: Option<nat>)
    requires d == 1 || d == 2
    ensures r.Some? ==> StarSpan(s, d, r.value)
    ensures r.None? ==> forall k :: !StarSpan(s, d, k)
  {
    if d <= |s| && s[..d] == Stars(d) then
      var k := FindChar(s, '*', d);
      if d < k && k + d <= |s| && s[k..k + d] == Stars(d) then Some(k)
      else
        assert forall k' :: StarSpan(s, d, k') ==> k' == k by {
          forall k' | StarSpan(s, d, k') ensures k' == k {
            StarSpanClose(s, d, k');
          }
        }
        None
    else None
  }

  /** `re.sub` of the `d`-asterisk marker pattern: each marked run keeps only its text. */
  function StripStars(s: string, d: nat): (r: string)
    requires d == 1 || d == 2
    ensures |r| <= |s|
  {
    if s == [] then []
    else match StarsAt(s, d)
      case Some(k) => s[d..k] + StripStars(s[k + d..], d)
      case None => [s[0]] + StripStars(s[1..], d)
  }

  /** `clean_text`: drop links and bold/italic markers, then collapse whitespace and strip. */
  function CleanText(text: string): (r: string)
    ensures Collapsed(r)
    ensures Visible(r) == Visible(StripStars(StripStars(StripLinks(text), 2), 1))
  {
    var plain := StripStars(StripStars(StripLinks(text), 2), 1);
    CollapseIsCollapsed(plain);
    StripCollapsed(Collapse(plain));
    CollapseKeepsVisible(plain);
    Strip(Collapse(plain))
  }

  lemma {:induction false} StripLinksPlain(s: string)
    requires '[' !in s
    ensures StripLinks(s) == s
  {
    if s != [] {
      StripLinksPlain(s[1..]);
      assert s == [s[0]] + s[1..];
    }
  }

  lemma {:induction false} StripStarsPlain(s: string, d: nat)
    requires d == 1 || d == 2
    requires '*' !in s
    ensures StripStars(s, d) == s
  {
    if s != [] {
      StripStarsPlain(s[1..], d);
      assert s == [s[0]] + s[1..];
    }
  }

  /** A character that opens no link is copied through. */
  lemma StripLinksCons(c: char, rest: string)
    requires c != '['
    ensures StripLinks([c] + rest) == [c] + StripLinks(rest)
  {
    assert ([c] + rest)[1..] == rest;
  }

  /** A link at the head of the text is replaced by its text. */
  lemma StripLinksAtLink(text: string, target: string, b: string)
    requires ']' !in text && ')' !in target && target != []
    ensures StripLinks("[" + text + "](" + target + ")" + b) == text + StripLinks(b)
  {
    var s := "[" + text + "](" + target + ")" + b;
    var k, e := |text| + 1, |text| + 3 + |target|;
    assert forall m :: 0 < m < k ==> s[m] == text[m - 1];
    assert forall m :: k + 2 <= m < e ==> s[m] == target[m - k - 2];
    assert LinkSpan(s, k, e);
    assert LinkAt(s) == Some((k, e));
    assert s[1..k] == text;
    assert s[e + 1..] == b;
  }

  /** Text holding no `[` in front of the rest is copied through. */
  lemma {:induction false} StripLinksPrefix(a: string, rest: string)
    requires '[' !in a
    ensures StripLinks(a + rest) == a + StripLinks(rest)
  {
    if a != [] {
      assert a + rest == [a[0]] + (a[1..] + rest);
      assert a[0] in a;
      StripLinksCons(a[0], a[1..] + rest);
      StripLinksPrefix(a[1..], rest);
      assert a == [a[0]] + a[1..];
    } else {
      assert a + rest == rest;
    }
  }

  /** A link is replaced by its text, and what precedes it (holding no `[`) is kept. */
  lemma StripLinksOfLink(a: string, text: string, target: string, b: string)
    requires '[' !in a && ']' !in text && ')' !in target && target != []
    ensures StripLinks(a + ("[" + text + "](" + target + ")" + b)) == a + text + StripLinks(b)
  {
    StripLinksPrefix(a, "[" + text + "](" + target + ")" + b);
    StripLinksAtLink(text, target, b);
  }

  /** A character that opens no marker is copied through. */
  lemma StripStarsCons(c: char, rest: string, d: nat)
    requires d == 1 || d == 2
    requires c != '*'
    ensures StripStars([c] + rest, d) == [c] + StripStars(rest, d)
  {
    var s := [c] + rest;
    assert s[1..] == rest;
    if d <= |s| {
      assert s[..d][0] == c;
    }
    assert StarsAt(s, d).None?;
  }

  /** A marked run at the head of the text loses its markers. */
  lemma StripStarsAtMarked(text: string, b: string, d: nat)
    requires d == 1 || d == 2
    requires '*' !in text && text != []
    ensures StripStars(Stars(d) + text + Stars(d) + b, d) == text + StripStars(b, d)
  {
    var s := Stars(d) + text + Stars(d) + b;
    var k := d + |text|;
    assert s[..d] == Stars(d);
    assert s[k..k + d] == Stars(d);
    assert forall m :: d <= m < k ==> s[m] == text[m - d];
    assert StarSpan(s, d, k);
    StarSpanClose(s, d, k);
    assert StarsAt(s, d) == Some(k);
    assert s[d..k] == text;
    assert s[k + d..] == b;
  }

  /** Text holding no `*` in front of the rest is copied through. */
  lemma {:induction false} StripStarsPrefix(a: string, rest: string, d: nat)
    requires d == 1 || d == 2
    requires '*' !in a
    ensures StripStars(a + rest, d) == a + StripStars(rest, d)
  {
    if a != [] {
      assert a + rest == [a[0]] + (a[1..] + rest);
      assert a[0] in a;
      StripStarsCons(a[0], a[1..] + rest, d);
      StripStarsPrefix(a[1..], rest, d);
      assert a == [a[0]] + a[1..];
    } else {
      assert a + rest == rest;
    }
  }

  /** A marked run loses its markers, and what precedes it (holding no `*`) is kept. */
  lemma StripStarsOfMarked(a: string, text: string, b: string, d: nat)
    requires d == 1 || d == 2
    requires '*' !in a && '*' !in text && text != []
    ensures StripStars(a + Stars(d) + text + Stars(d) + b, d) == a + text + StripStars(b, d)
  {
    var tail := Stars(d) + text + Stars(d) + b;
    assert a + Stars(d) + text + Stars(d) + b == a + tail;
    StripStarsPrefix(a, tail, d);
    StripStarsAtMarked(text, b, d);
  }

  /** Text without markdown only has its whitespace normalised, and cleaning it again changes nothing. */
  lemma CleanPlainText(s: string)
    requires '[' !in s && '*' !in s
    ensures CleanText(s) == Collapse(s)
    ensures Visible(CleanText(s)) == Visible(s)
    ensures CleanText(CleanText(s)) == CleanText(s)
  {
    StripLinksPlain(s);
    StripStarsPlain(s, 2);
    StripStarsPlain(s, 1);
    CollapseIsCollapsed(s);
    StripCollapsed(Collapse(s));
    CollapseKeepsVisible(s);
    var c := Collapse(s);
    VisibleChars(c, '[');
    VisibleChars(s, '[');
    VisibleChars(c, '*');
    VisibleChars(s, '*');
    StripLinksPlain(c);
    StripStarsPlain(c, 2);
    StripStarsPlain(c, 1);
    CollapseIdempotent(s);
  }

  // ---------------------------------------------------------------------------
  // parse_markdown_table
  // ---------------------------------------------------------------------------

  /** A stripped line that starts and ends with `|`. */
  predicate IsTableRow(l: string) {
    StartsWith(l, "|") && EndsWith(l, "|")
  }

  /** The header separator row: it holds `:---`, `---:` or `| ---`. */
  predicate IsSeparatorRow(l: string) {
    Contains(l, ":---") || Contains(l, "---:") || Contains(l, "| ---")
  }

  /** `[c.strip() for c in l.split('|')[1:-1]]`. */
  function Cells(l: string): seq<string> {
    var parts := SplitOn(l, '|');
    if |parts| < 2 then [] else StripEach(parts[1..|parts| - 1])
  }

  /** `[p.strip() for p in ps]`. */
  function StripEach(ps: seq<string>): (r: seq<string>)
    ensures |r| == |ps| && forall i :: 0 <= i < |ps| ==> r[i] == Strip(ps[i])
  {
    if ps == [] then [] else [Strip(ps[0])] + StripEach(ps[1..])
  }

  /** No cell holds a `|`, and none starts or ends with whitespace. */
  lemma CellsArePlain(l: string)
    ensures forall i :: 0 <= i < |Cells(l)| ==>
      && '|' !in Cells(l)[i]
      && (Cells(l)[i] != [] ==> !IsSpace(Cells(l)[i][0]) && !IsSpace(Cells(l)[i][|Cells(l)[i]| - 1]))
  {
    var cs, parts := Cells(l), SplitOn(l, '|');
    forall i | 0 <= i < |cs|
      ensures '|' !in cs[i] && (cs[i] != [] ==> !IsSpace(cs[i][0]) && !IsSpace(cs[i][|cs[i]| - 1]))
    {
      assert cs[i] == Strip(parts[1..|parts| - 1][i]);
      StripKeepsOut(parts[1..|parts| - 1][i], '|');
    }
  }

  /** The pipe-delimited row with cells `cs`. */
  function Row(cs: seq<string>): string {
    "|" + Join("|", cs) + "|"
  }

  /**
   * Reading the cells of a row written from non-empty, stripped, pipe-free cells gives the cells back.
   * Documents the round trip of the row format; no proof here uses it.
   */
  lemma CellsOfRow(cs: seq<string>)
    requires cs != []
    requires forall i :: 0 <= i < |cs| ==> '|' !in cs[i] && Strip(cs[i]) == cs[i]
    ensures Cells(Row(cs)) == cs
  {
    var parts := [""] + cs + [""];
    RowParts(cs);
    assert parts[1..|parts| - 1] == cs;
    assert Cells(Row(cs)) == StripEach(cs);
  }

  /** Splitting a row on `|` gives its pipe-free cells between an empty piece at each end. */
  lemma RowParts(cs: seq<string>)
    requires cs != []
    requires forall i :: 0 <= i < |cs| ==> '|' !in cs[i]
    ensures SplitOn(Row(cs), '|') == [""] + cs + [""]
  {
    var parts := [""] + cs + [""];
    RowIsJoin(cs);
    forall i | 0 <= i < |parts| ensures '|' !in parts[i] {
      if 0 < i < |parts| - 1 {
        assert parts[i] == cs[i - 1];
      }
    }
    SplitOnJoin(parts, '|');
  }

  lemma RowIsJoin(cs: seq<string>)
    requires cs != []
    ensures Join("|", [""] + cs + [""]) == Row(cs)
  {
    assert Join("|", [""] + cs) == "" + "|" + Join("|", cs) by {
      assert ([""] + cs)[1..] == cs;
    }
    JoinSnoc("|", [""] + cs, "");
  }

  /** What the reader keeps of an entry: a name, and every text field cleaned. */
  predicate WellFormed(e: Entry) {
    && e.name != []
    && Collapsed(e.name) && Collapsed(e.category) && Collapsed(e.region) && Collapsed(e.information)
  }

  /** The entry a data row produces: five cells at least, and a name that is not empty once cleaned. */
  function RowEntry(cells: seq<string>): (r: Option<Entry>)
    ensures r.Some? <==> |cells| >= 5 && CleanText(cells[2]) != []
    ensures r.Some? ==> WellFormed(r.value) && r.value.name == CleanText(cells[2])
    ensures r.Some? && |cells| == 5 ==> r.value.information == ""
  {
    if |cells| < 5 then None
    else
      var name := CleanText(cells[2]);
      if name == [] then None
      else
        var category, region := CleanText(cells[3]), CleanText(cells[4]);
        var information := if |cells| > 5 then CleanText(cells[5]) else "";
        assert Collapsed(information);
        Some(Entry(ParseFound(cells[0]), ExtractUrl(cells[1]), name, category, region, information))
  }

  /** How the reader treats a line: skipped, the separator, or a table row with the entry it would give. */
  datatype LineKind = Ignored | Separator | TableRow(entry: Option<Entry>)

  function Classify(line: string): (k: LineKind)
    ensures k.TableRow? && k.entry.Some? ==> WellFormed(k.entry.value)
  {
    var l := Strip(line);
    if l == [] || !IsTableRow(l) then Ignored
    else if IsSeparatorRow(l) then Separator
    else TableRow(RowEntry(Cells(l)))
  }

  /** The kind of each line, in order. */
  function Kinds(lines: seq<string>): (ks: seq<LineKind>)
    ensures |ks| == |lines|
  {
    if lines == [] then [] else [Classify(lines[0])] + Kinds(lines[1..])
  }

  lemma {:induction false} KindsAt(lines: seq<string>, i: nat)
    requires i < |lines|
    ensures Kinds(lines)[i] == Classify(lines[i])
  {
    if i > 0 {
      KindsAt(lines[1..], i - 1);
    }
  }

  /** The entry a line of the data part contributes, if any. */
  function KindEntries(k: LineKind): seq<Entry> {
    if k.TableRow? && k.entry.Some? then [k.entry.value] else []
  }

  /** The entries of a run of lines read after the header, in order. */
  function RowEntries(ks: seq<LineKind>): seq<Entry> {
    if ks == [] then []
    else RowEntries(ks[..|ks| - 1]) + KindEntries(ks[|ks| - 1])
  }

  /** The index of the first separator, or `|ks|` when there is none. */
  function FirstSeparator(ks: seq<LineKind>): (k: nat)
    ensures k <= |ks|
    ensures k < |ks| ==> ks[k] == Separator
    ensures forall i :: 0 <= i < k ==> ks[i] != Separator
  {
    if ks == [] then 0
    else if ks[0] == Separator then 0
    else
      var k := FirstSeparator(ks[1..]);
      assert forall i :: 0 < i <= k ==> ks[i] == ks[1..][i - 1];
      1 + k
  }

  /** The entries of the table rows after the first separator; none when there is no separator. */
  function ReadTable(ks: seq<LineKind>): seq<Entry> {
    var k := FirstSeparator(ks);
    if k == |ks| then [] else RowEntries(ks[k + 1..])
  }

  /** What `parse_markdown_table` returns for the lines of the file. */
  function ParseTable(lines: seq<string>): seq<Entry> {
    ReadTable(Kinds(lines))
  }

  /** The reader's state between lines: whether the separator was seen, and the entries so far. */
  datatype ReadState = ReadState(headerFound: bool, entries: seq<Entry>)

  /** One line of the reader: a separator sets the flag, a row after it adds its entry. */
  function Step(st: ReadState, k: LineKind): ReadState {
    match k
    case Ignored => st
    case Separator => ReadState(true, st.entries)
    case TableRow(e) =>
      if st.headerFound && e.Some? then ReadState(true, st.entries + [e.value]) else st
  }

  /** The reader's state after the given lines. */
  function Run(ks: seq<LineKind>): ReadState {
    if ks == [] then ReadState(false, [])
    else Step(Run(ks[..|ks| - 1]), ks[|ks| - 1])
  }

  lemma RunSnoc(ks: seq<LineKind>, n: nat)
    requires n < |ks|
    ensures Run(ks[..n + 1]) == Step(Run(ks[..n]), ks[n])
  {
    assert ks[..n + 1][..n] == ks[..n];
  }

  lemma FirstSeparatorSnoc(ks: seq<LineKind>)
    requires ks != []
    ensures var init := ks[..|ks| - 1];
      FirstSeparator(ks) ==
        if FirstSeparator(init) < |init| then FirstSeparator(init)
        else if ks[|ks| - 1] == Separator then |init| else |ks|
  {
    var init := ks[..|ks| - 1];
    var k := FirstSeparator(init);
    assert forall i :: 0 <= i < |init| ==> ks[i] == init[i];
    if k < |init| {
      FirstSeparatorIs(ks, k);
    } else if ks[|ks| - 1] == Separator {
      FirstSeparatorIs(ks, |init|);
    } else {
      FirstSeparatorIs(ks, |ks|);
    }
  }

  /** The first separator is the one index that is a separator with none before it. */
  lemma FirstSeparatorIs(ks: seq<LineKind>, k: nat)
    requires k <= |ks|
    requires k < |ks| ==> ks[k] == Separator
    requires forall i :: 0 <= i < k ==> ks[i] != Separator
    ensures FirstSeparator(ks) == k
  {
  }

  /**
   * The line-by-line reader agrees with the description by the first separator:
   * the flag is set exactly when a separator was read, and the entries are
   * those of the rows after the first one.
   */
  lemma {:induction false} RunIsReadTable(ks: seq<LineKind>)
    ensures Run(ks).headerFound <==> FirstSeparator(ks) < |ks|
    ensures Run(ks).entries == ReadTable(ks)
    decreases |ks|
  {
    if ks != [] {
      var init := ks[..|ks| - 1];
      var last := ks[|ks| - 1];
      RunIsReadTable(init);
      FirstSeparatorSnoc(ks);
      var k := FirstSeparator(init);
      if k < |init| {
        RowEntriesSnoc(ks, k + 1);
      } else if last == Separator {
        assert ks[|init| + 1..] == [];
      }
    }
  }

  lemma RowEntriesSnoc(ks: seq<LineKind>, j: nat)
    requires j < |ks|
    ensures RowEntries(ks[j..]) == RowEntries(ks[..|ks| - 1][j..]) + KindEntries(ks[|ks| - 1])
  {
    var s := ks[j..];
    assert s[..|s| - 1] == ks[..|ks| - 1][j..];
    assert s[|s| - 1] == ks[|ks| - 1];
  }

  /** The reader's step on one line, spelled out as the line loop takes its branches. */
  lemma StepOfLine(st: ReadState, line: string, l: string)
    requires l == Strip(line)
    ensures Step(st, Classify(line)) ==
      if l == [] || !IsTableRow(l) then st
      else if IsSeparatorRow(l) then ReadState(true, st.entries)
      else if !st.headerFound then st
      else
        var entry := RowEntry(Cells(l));
        if entry.Some? then ReadState(st.headerFound, st.entries + [entry.value]) else st
  {
    if l == [] || !IsTableRow(l) {
      assert Classify(line) == Ignored;
    } else if IsSeparatorRow(l) {
      assert Classify(line) == Separator;
    } else {
      assert Classify(line) == TableRow(RowEntry(Cells(l)));
    }
  }

  /** The line loop of `parse_markdown_table`, with its `header_found` flag. */
  method ParseMarkdownTable(lines: seq<string>) returns (entries: seq<Entry>)
    ensures entries == ParseTable(lines)
  {
    ghost var ks := Kinds(lines);
    entries := [];
    var headerFound := false;
    for n := 0 to |lines|
      invariant ReadState(headerFound, entries) == Run(ks[..n])
    {
      ghost var before := ReadState(headerFound, entries);
      var line := Strip(lines[n]);
      if line != [] && IsTableRow(line) {
        if IsSeparatorRow(line) {
          headerFound := true;
        } else if headerFound {
          var entry := RowEntry(Cells(line));
          if entry.Some? {
            entries := entries + [entry.value];
          }
        }
      }
      KindsAt(lines, n);
      RunSnoc(ks, n);
      StepOfLine(before, lines[n], line);
    }
    assert ks[..|lines|] == ks;
    RunIsReadTable(ks);
  }

  lemma {:induction false} RowEntriesAppend(a: seq<LineKind>, b: seq<LineKind>)
    ensures RowEntries(a + b) == RowEntries(a) + RowEntries(b)
    decreases |b|
  {
    if b == [] {
      assert a + b == a;
    } else {
      var b' := b[..|b| - 1];
      assert (a + b)[..|a + b| - 1] == a + b';
      RowEntriesAppend(a, b');
    }
  }

  /** Each entry comes from one table row of the run that produced it; there are never more entries than lines. */
  lemma {:induction false} RowEntriesProvenance(ks: seq<LineKind>)
    ensures |RowEntries(ks)| <= |ks|
    ensures forall e :: e in RowEntries(ks) ==> exists i :: 0 <= i < |ks| && ks[i] == TableRow(Some(e))
  {
    if ks != [] {
      var init := ks[..|ks| - 1];
      RowEntriesProvenance(init);
      forall e | e in RowEntries(ks) ensures exists i :: 0 <= i < |ks| && ks[i] == TableRow(Some(e)) {
        if e in RowEntries(init) {
          var i :| 0 <= i < |init| && init[i] == TableRow(Some(e));
          assert ks[i] == init[i];
        } else {
          assert ks[|ks| - 1] == TableRow(Some(e));
        }
      }
    }
  }

  /**
   * Every parsed entry has a non-empty name and cleaned text fields, and comes
   * from a table row after the first separator; there are never more entries than lines.
   */
  lemma ParseTableEntries(lines: seq<string>)
    ensures |ParseTable(lines)| <= |lines|
    ensures forall e :: e in ParseTable(lines) ==>
      && WellFormed(e)
      && exists i :: FirstSeparator(Kinds(lines)) < i < |lines| && Classify(lines[i]) == TableRow(Some(e))
  {
    var ks := Kinds(lines);
    var k := FirstSeparator(ks);
    if k < |ks| {
      RowEntriesProvenance(ks[k + 1..]);
      forall e | e in ParseTable(lines)
        ensures WellFormed(e) && exists i :: k < i < |lines| && Classify(lines[i]) == TableRow(Some(e))
      {
        var i :| 0 <= i < |ks[k + 1..]| && ks[k + 1..][i] == TableRow(Some(e));
        KindsAt(lines, k + 1 + i);
      }
    }
  }

  /** Without a separator row nothing is read: the rows before it count as the header. */
  lemma NoSeparatorNoEntries(lines: seq<string>)
    requires forall i :: 0 <= i < |lines| ==> Classify(lines[i]) != Separator
    ensures ParseTable(lines) == []
  {
    var ks := Kinds(lines);
    forall i | 0 <= i < |ks| ensures ks[i] != Separator {
      KindsAt(lines, i);
    }
  }

  lemma {:induction false} KindsAppend(a: seq<string>, b: seq<string>)
    ensures Kinds(a + b) == Kinds(a) + Kinds(b)
  {
    if a == [] {
      assert a + b == b;
    } else {
      assert (a + b)[1..] == a[1..] + b;
      KindsAppend(a[1..], b);
    }
  }

  /** Kinds before the separator that hold no separator do not change what is read. */
  lemma ReadTableAfterHeader(pre: seq<LineKind>, ks: seq<LineKind>)
    requires forall i :: 0 <= i < |pre| ==> pre[i] != Separator
    ensures ReadTable(pre + ks) == ReadTable(ks)
  {
    var all := pre + ks;
    var k := FirstSeparator(ks);
    forall i | 0 <= i < |pre| + k ensures all[i] != Separator {
      if i < |pre| {
        assert all[i] == pre[i];
      } else {
        assert all[i] == ks[i - |pre|];
      }
    }
    if k < |ks| {
      assert all[|pre| + k] == ks[k];
      FirstSeparatorIs(all, |pre| + k);
      DropPrefix(pre, ks, k + 1);
      ReadTableAt(all, |pre| + k);
      ReadTableAt(ks, k);
    } else {
      FirstSeparatorIs(all, |pre| + k);
      assert ReadTable(all) == [] == ReadTable(ks);
    }
  }

  lemma DropPrefix<T>(pre: seq<T>, s: seq<T>, n: nat)
    requires n <= |s|
    ensures (pre + s)[|pre| + n..] == s[n..]
  {
  }

  lemma ReadTableAt(ks: seq<LineKind>, k: nat)
    requires k < |ks| && FirstSeparator(ks) == k
    ensures ReadTable(ks) == RowEntries(ks[k + 1..])
  {
    var r := RowEntries(ks[k + 1..]);
    assert ReadTable(ks) == (if k == |ks| then [] else r);
  }

  /** Lines before the table that hold no separator row do not change what is read. */
  lemma HeaderLinesIgnored(pre: seq<string>, lines: seq<string>)
    requires forall i :: 0 <= i < |pre| ==> Classify(pre[i]) != Separator
    ensures ParseTable(pre + lines) == ParseTable(lines)
  {
    KindsAppend(pre, lines);
    var kp := Kinds(pre);
    forall i | 0 <= i < |kp| ensures kp[i] != Separator {
      KindsAt(pre, i);
    }
    ReadTableAfterHeader(kp, Kinds(lines));
  }

  /** A skipped line can be dropped without changing what is read. */
  lemma ReadTableWithoutIgnored(a: seq<LineKind>, b: seq<LineKind>)
    ensures ReadTable(a + [Ignored] + b) == ReadTable(a + b)
  {
    assert (a + [Ignored])[..|a|] == a;
    assert Run(a + [Ignored]) == Run(a);
    RunSameAfter(a + [Ignored], a, b);
    RunIsReadTable(a + [Ignored] + b);
    RunIsReadTable(a + b);
  }

  /** Two line runs that leave the reader in the same state stay in step on whatever follows. */
  lemma {:induction false} RunSameAfter(x: seq<LineKind>, y: seq<LineKind>, b: seq<LineKind>)
    requires Run(x) == Run(y)
    ensures Run(x + b) == Run(y + b)
    decreases |b|
  {
    if b == [] {
      assert x + b == x && y + b == y;
    } else {
      var b' := b[..|b| - 1];
      RunSameAfter(x, y, b');
      assert (x + b)[..|x + b| - 1] == x + b' && (x + b)[|x + b| - 1] == b[|b| - 1];
      assert (y + b)[..|y + b| - 1] == y + b' && (y + b)[|y + b| - 1] == b[|b| - 1];
    }
  }

  /** A line that is not a table row (a blank line, a heading, prose) can be dropped without changing what is read. */
  lemma NonTableLineIgnored(a: seq<string>, x: string, b: seq<string>)
    requires !IsTableRow(Strip(x))
    ensures ParseTable(a + [x] + b) == ParseTable(a + b)
  {
    KindsAppend(a + [x], b);
    KindsAppend(a, [x]);
    KindsAppend(a, b);
    assert Kinds([x]) == [Ignored];
    ReadTableWithoutIgnored(Kinds(a), Kinds(b));
  }

  // ---------------------------------------------------------------------------
  // create_database
  // ---------------------------------------------------------------------------

  /** The `hk` row inserted for an entry under the given id. */
  function ToItem(id: int, e: Entry): Item {
    Item(id, e.found, e.name, e.category, e.region, e.information, e.locationUrl)
  }

  /**
   * The insert loop of `create_database`: entries are numbered from 1 in file
   * order, so the ids are exactly 1..n, ascending, one per entry.
   */
  method CreateDatabase(entries: seq<Entry>) returns (rows: seq<Item>)
    ensures |rows| == |entries|
    ensures forall i :: 0 <= i < |rows| ==> rows[i] == ToItem(i + 1, entries[i])
    ensures IdsAscending(rows)
    ensures forall id :: HasItem(rows, id) <==> 1 <= id <= |entries|
  {
    rows := [];
    for i := 0 to |entries|
      invariant |rows| == i
      invariant forall j :: 0 <= j < i ==> rows[j] == ToItem(j + 1, entries[j])
    {
      rows := rows + [ToItem(i + 1, entries[i])];
    }
    forall id | 1 <= id <= |entries| ensures HasItem(rows, id) {
      assert rows[id - 1].id == id;
    }
  }
}
