/**
 * The SQL console (`POST /sql`): the checks a query must pass before it is
 * handed to the database, and the response built from what the database returns.
 * The database itself is a parameter: the model says what is done with its
 * answer, not how it computes it.
 */
module Console {
  import opened Wrappers
  import opened Http
  import opened Text

  /** The keywords the console refuses, in the order they are tried. */
  const Denylist: seq<string> :=
    ["INSERT", "UPDATE", "DELETE", "DROP", "CREATE", "ALTER", "TRUNCATE", "GRANT", "REVOKE"]

  const SelectOnly: string :=
    "Only SELECT queries are allowed. Write operations are not permitted through the SQL console."

  function Forbidden(keyword: string): string {
    "Query contains forbidden keyword: " + keyword
  }

  /** `sql.split()[0].upper() if sql.split() else ""`. */
  function FirstWord(sql: string): (w: string)
    ensures w == [] <==> AllSpace(sql)
  {
    var ws := Words(sql);
    NoWordsIffBlank(sql);
    if ws == [] then "" else Upper(ws[0])
  }

  /** `f" {keyword} " in f" {sql_upper} "`. */
  predicate Mentions(sqlUpper: string, keyword: string) {
    Contains(" " + sqlUpper + " ", " " + keyword + " ")
  }

  /** `keyword` occurs at `i` in `s` with a plain space or an end of `s` on each side. */
  predicate SpacedAt(s: string, keyword: string, i: int) {
    && OccursAt(s, keyword, i)
    && (i == 0 || s[i - 1] == ' ')
    && (i + |keyword| == |s| || s[i + |keyword|] == ' ')
  }

  /** The `for keyword in dangerous_keywords` loop: the first keyword the query mentions, if any. */
  function FirstForbidden(sqlUpper: string, keywords: seq<string>): (r: Option<string>)
    ensures r.None? <==> forall i :: 0 <= i < |keywords| ==> !Mentions(sqlUpper, keywords[i])
    ensures r.Some? ==> exists i :: (0 <= i < |keywords| && keywords[i] == r.value && Mentions(sqlUpper, r.value)
      && forall j :: 0 <= j < i ==> !Mentions(sqlUpper, keywords[j]))
  {
    if keywords == [] then None
    else if Mentions(sqlUpper, keywords[0]) then Some(keywords[0])
    else
      var r := FirstForbidden(sqlUpper, keywords[1..]);
      assert forall i :: 0 < i < |keywords| ==> keywords[i] == keywords[1..][i - 1];
      r
  }

  /**
   * The validation of `execute_sql`: strip the query, demand `SELECT` as its
   * first word, then refuse any denylisted keyword. An accepted query is
   * passed on stripped.
   */
  function Gate(query: string): (r: Result<string, ApiError>)
    ensures r.Ok? ==> r.value == Strip(query)
    ensures r.Ok? <==> (FirstWord(Strip(query)) == "SELECT"
      && forall i :: 0 <= i < |Denylist| ==> !Mentions(Upper(Strip(query)), Denylist[i]))
    ensures FirstWord(Strip(query)) != "SELECT" ==> r == Err(BadRequest(SelectOnly))
    ensures FirstWord(Strip(query)) == "SELECT" && r.Err? ==>
      exists i :: 0 <= i < |Denylist| && Mentions(Upper(Strip(query)), Denylist[i])
        && (forall j :: 0 <= j < i ==> !Mentions(Upper(Strip(query)), Denylist[j]))
        && r == Err(BadRequest(Forbidden(Denylist[i])))
  {
    var sql := Strip(query);
    if FirstWord(sql) != "SELECT" then Err(BadRequest(SelectOnly))
    else
      var found := FirstForbidden(Upper(sql), Denylist);
      if found.Some? then Err(BadRequest(Forbidden(found.value))) else Ok(sql)
  }

  /** A value in a result row. */
  datatype Value = Null | Bool(b: bool) | Int(i: int) | Text(s: string)

  /** What the database answers for a query: its columns and rows, or the message of the error it raised. */
  datatype Outcome = Rows(columns: seq<string>, rows: seq<seq<Value>>) | Failed(message: string)

  /** The body of a successful `POST /sql`. */
  datatype SqlResponse = SqlResponse(columns: seq<string>, rows: seq<seq<Value>>, rowCount: nat)

  /**
   * `execute_sql`: a query refused by the gate never reaches the database; an
   * accepted one is answered with the database's rows and their number, or
   * with its error as a 400.
   */
  function ExecuteSql(query: string, database: string -> Outcome): (r: Result<SqlResponse, ApiError>)
    ensures r.Ok? ==> r.value.rowCount == |r.value.rows|
    ensures r.Ok? ==> Gate(query).Ok? && database(Gate(query).value) == Rows(r.value.columns, r.value.rows)
    ensures Gate(query).Err? ==> r == Err(Gate(query).error)
    ensures Gate(query).Ok? && database(Gate(query).value).Failed? ==>
      r == Err(BadRequest("Query error: " + database(Gate(query).value).message))
    ensures Gate(query).Ok? && database(Gate(query).value).Rows? ==>
      r == Ok(SqlResponse(database(Gate(query).value).columns, database(Gate(query).value).rows,
                          |database(Gate(query).value).rows|))
  {
    match Gate(query)
    case Err(e) => Err(e)
    case Ok(sql) =>
      match database(sql)
      case Failed(message) => Err(BadRequest("Query error: " + message))
      case Rows(columns, rows) => Ok(SqlResponse(columns, rows, |rows|))
  }

  // ---------------------------------------------------------------------------
  // What the gate lets through
  // ---------------------------------------------------------------------------

  lemma NoWordsIffBlank(s: string)
    ensures Words(s) == [] <==> AllSpace(s)
  {
    var t := TrimLeft(s);
    TrimLeftIsSuffix(s);
    if t == [] {
      assert s[..|s|] == s;
      assert Words(s) == [];
    } else {
      var k := |s| - |t|;
      assert t[0] == s[k] && !IsSpace(s[k]);
      assert Words(s) != [];
    }
  }

  /** An empty or all-whitespace query is refused, with the SELECT-only message. */
  lemma BlankQueryRejected(query: string)
    requires AllSpace(query)
    ensures Gate(query) == Err(BadRequest(SelectOnly))
  {
    StripIsPiece(query);
    var a := |query| - |TrimLeft(query)|;
    AllSpaceSlice(query, a, a + |Strip(query)|);
  }

  /** Whatever the gate accepts starts, once stripped, with the word `SELECT` in any letter case. */
  lemma AcceptedStartsWithSelect(query: string)
    requires Gate(query).Ok?
    ensures var sql := Strip(query);
      |sql| >= 6 && Upper(sql[..6]) == "SELECT" && (|sql| == 6 || IsSpace(sql[6]))
  {
    var sql := Strip(query);
    assert FirstWord(sql) == "SELECT";
    assert sql != [];
    assert TrimLeft(sql) == sql;
    var w := TakeWord(sql);
    assert Words(sql)[0] == w;
    assert |Upper(w)| == |w| == 6;
  }

  /**
   * A keyword counts as mentioned exactly when it occurs in the upper-cased
   * query with a plain space, or an end of the query, on each side. A tab,
   * a newline, a `;` or a parenthesis is not a boundary.
   */
  lemma MentionsIff(sqlUpper: string, keyword: string)
    ensures Mentions(sqlUpper, keyword) <==> exists i :: SpacedAt(sqlUpper, keyword, i)
  {
    var p, k := " " + sqlUpper + " ", " " + keyword + " ";
    ContainsIff(p, k);
    if Mentions(sqlUpper, keyword) {
      var i :| OccursAt(p, k, i);
      PaddedToSpaced(sqlUpper, keyword, i);
    }
    if exists i :: SpacedAt(sqlUpper, keyword, i) {
      var i :| SpacedAt(sqlUpper, keyword, i);
      SpacedToPadded(sqlUpper, keyword, i);
    }
  }

  lemma PaddedToSpaced(s: string, keyword: string, i: int)
    requires OccursAt(" " + s + " ", " " + keyword + " ", i)
    ensures SpacedAt(s, keyword, i)
  {
    var p, k := " " + s + " ", " " + keyword + " ";
    assert forall m :: 0 <= m < |s| ==> p[m + 1] == s[m];
    assert p[i] == ' ' && p[i + |keyword| + 1] == ' ';
    forall m | 0 <= m < |keyword| ensures s[i + m] == keyword[m] {
      assert p[i + 1 + m] == k[1 + m];
    }
  }

  lemma SpacedToPadded(s: string, keyword: string, i: int)
    requires SpacedAt(s, keyword, i)
    ensures OccursAt(" " + s + " ", " " + keyword + " ", i)
  {
    var p, k := " " + s + " ", " " + keyword + " ";
    forall m | 0 <= m < |k| ensures p[i + m] == k[m] {
      if 0 < m <= |keyword| {
        assert p[i + m] == s[i + m - 1];
      }
    }
  }

  /** A query without a plain space mentions a keyword only by being that keyword. */
  lemma MentionsWithoutSpace(sqlUpper: string, keyword: string)
    requires ' ' !in sqlUpper
    ensures Mentions(sqlUpper, keyword) <==> sqlUpper == keyword
  {
    MentionsIff(sqlUpper, keyword);
    if Mentions(sqlUpper, keyword) {
      var i :| SpacedAt(sqlUpper, keyword, i);
      assert i == 0 && |keyword| == |sqlUpper|;
      assert sqlUpper[..|sqlUpper|] == sqlUpper;
    } else if sqlUpper == keyword {
      assert SpacedAt(sqlUpper, keyword, 0);
    }
  }

  /**
   * The denylist is blind to a query whose words are separated by tabs or
   * newlines only: such a query passes exactly when it starts with `SELECT`,
   * whatever statements follow.
   */
  lemma GateWithoutPlainSpaces(query: string)
    requires ' ' !in Strip(query)
    ensures Gate(query).Ok? <==> FirstWord(Strip(query)) == "SELECT"
  {
    var sql := Strip(query);
    if FirstWord(sql) == "SELECT" {
      var u := Upper(sql);
      UpperKeepsOutSpace(sql);
      AcceptedPrefix(sql);
      assert u[0] == u[..6][0] == 'S';
      NoKeywordWithoutSpace(u);
    }
  }

  lemma UpperKeepsOutSpace(s: string)
    requires ' ' !in s
    ensures ' ' !in Upper(s)
  {
    var u := Upper(s);
    forall m | 0 <= m < |u| ensures u[m] != ' ' {
      assert s[m] != ' ';
    }
  }

  lemma NoKeywordWithoutSpace(u: string)
    requires ' ' !in u && u != [] && u[0] == 'S'
    ensures forall i :: 0 <= i < |Denylist| ==> !Mentions(u, Denylist[i])
  {
    forall i | 0 <= i < |Denylist| ensures !Mentions(u, Denylist[i]) {
      MentionsWithoutSpace(u, Denylist[i]);
      DenylistAvoidsS(i);
    }
  }

  /** When the first word is `SELECT`, the upper-cased query starts with `SELECT`. */
  lemma AcceptedPrefix(sql: string)
    requires sql != [] && !IsSpace(sql[0])
    requires FirstWord(sql) == "SELECT"
    ensures |sql| >= 6 && Upper(sql)[..6] == "SELECT"
  {
    assert TrimLeft(sql) == sql;
    var w := TakeWord(sql);
    assert Words(sql)[0] == w;
    assert |Upper(w)| == |w| == 6;
    assert Upper(sql)[..6] == Upper(w);
  }

  /** No denylisted keyword starts with the `S` of `SELECT`. */
  lemma DenylistAvoidsS(i: nat)
    requires i < |Denylist|
    ensures Denylist[i] != [] && Denylist[i][0] != 'S'
  {
  }
}
