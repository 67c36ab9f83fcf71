/**
 * The item catalog (the `hk` table) and the filters of `GET /items`.
 * The table is held in id order: `get_items` reads it `ORDER BY id`, and the
 * loader numbers the rows 1..n.
 */
module Catalog {
  import opened Wrappers
  import opened Text

  /** One row of the `hk` table. */
  datatype Item = Item(
    id: int,
    found: bool,
    name: string,
    category: string,
    region: string,
    information: string,
    locationUrl: Option<string>)

  /** Rows in strictly ascending id order: the primary key is unique and the order is `ORDER BY id`. */
  predicate IdsAscending(items: seq<Item>) {
    forall i, j :: 0 <= i < j < |items| ==> items[i].id < items[j].id
  }

  predicate HasItem(items: seq<Item>, id: int) {
    exists i :: 0 <= i < |items| && items[i].id == id
  }

  /** With a unique key, a row is identified by its id (a property of the catalog for readers; no proof here uses it). */
  lemma SameIdSameRow(items: seq<Item>, a: Item, b: Item)
    requires IdsAscending(items)
    requires a in items && b in items && a.id == b.id
    ensures a == b
  {
    var i :| 0 <= i < |items| && items[i] == a;
    var j :| 0 <= j < |items| && items[j] == b;
    if i < j {
      assert items[i].id < items[j].id;
    } else if j < i {
      assert items[j].id < items[i].id;
    }
  }

  // ---------------------------------------------------------------------------
  // SQL LIKE, as used by the name filter
  // ---------------------------------------------------------------------------

  /** SQL `s LIKE p`: `%` matches any run of characters, `_` any one character, no escape character. */
  predicate Like(s: string, p: string)
    decreases |s| + |p|
  {
    if p == [] then s == []
    else if p[0] == '%' then Like(s, p[1..]) || (s != [] && Like(s[1..], p))
    else s != [] && (p[0] == '_' || p[0] == s[0]) && Like(s[1..], p[1..])
  }

  predicate NoWildcards(p: string) {
    '%' !in p && '_' !in p
  }

  lemma {:induction false} LikePercentMatchesAll(s: string)
    ensures Like(s, "%")
  {
    if s != [] {
      LikePercentMatchesAll(s[1..]);
    }
  }

  /** A literal pattern followed by `%` matches exactly the strings it starts. */
  lemma {:induction false} LikeLiteralPrefix(s: string, w: string)
    requires NoWildcards(w)
    ensures Like(s, w + "%") <==> StartsWith(s, w)
  {
    if w == [] {
      assert w + "%" == "%";
      LikePercentMatchesAll(s);
    } else {
      assert (w + "%")[1..] == w[1..] + "%";
      assert w[0] in w;
      if s != [] {
        LikeLiteralPrefix(s[1..], w[1..]);
        if StartsWith(s, w) {
          assert s[1..][..|w| - 1] == s[..|w|][1..];
        }
        if StartsWith(s[1..], w[1..]) && s[0] == w[0] {
          assert s[..|w|] == [s[0]] + s[1..][..|w| - 1];
        }
      }
    }
  }

  /** A leading `%` lets the rest of the pattern match any suffix. */
  lemma {:induction false} LikeLeadingPercent(s: string, q: string)
    ensures Like(s, "%" + q) <==> exists i :: 0 <= i <= |s| && Like(s[i..], q)
  {
    var p := "%" + q;
    assert p[1..] == q;
    assert s[0..] == s;
    if s != [] {
      LikeLeadingPercent(s[1..], q);
      if exists i :: 0 <= i <= |s| && Like(s[i..], q) {
        var i :| 0 <= i <= |s| && Like(s[i..], q);
        if i > 0 {
          assert s[1..][i - 1..] == s[i..];
        }
      }
      if Like(s[1..], p) {
        var j :| 0 <= j <= |s[1..]| && Like(s[1..][j..], q);
        assert s[1..][j..] == s[j + 1..];
      }
    }
  }

  /** `%w%` with a literal `w` is the substring test. */
  lemma LikeContains(s: string, w: string)
    requires NoWildcards(w)
    ensures Like(s, "%" + w + "%") <==> Contains(s, w)
  {
    assert "%" + w + "%" == "%" + (w + "%");
    LikeLeadingPercent(s, w + "%");
    ContainsIff(s, w);
    if Contains(s, w) {
      var i :| OccursAt(s, w, i);
      LikeLiteralPrefix(s[i..], w);
      assert s[i..][..|w|] == s[i..i + |w|];
    }
    if exists i :: 0 <= i <= |s| && Like(s[i..], w + "%") {
      var i :| 0 <= i <= |s| && Like(s[i..], w + "%");
      LikeLiteralPrefix(s[i..], w);
      assert s[i..][..|w|] == s[i..i + |w|];
      assert OccursAt(s, w, i);
    }
  }

  lemma LowerKeepsNoWildcards(w: string)
    requires NoWildcards(w)
    ensures NoWildcards(Lower(w))
  {
  }

  /**
   * `LOWER(name) LIKE LOWER('%' || q || '%')` is a case-insensitive substring test
   * whenever `q` itself holds no `%` or `_`.
   */
  lemma NameFilterIsSubstring(name: string, q: string)
    requires NoWildcards(q)
    ensures Like(Lower(name), Lower("%" + q + "%")) <==> Contains(Lower(name), Lower(q))
  {
    assert Lower("%" + q + "%") == "%" + Lower(q) + "%";
    LowerKeepsNoWildcards(q);
    LikeContains(Lower(name), Lower(q));
  }

  /**
   * A name filter of `_` is not a substring test: it matches every non-empty name.
   * Documents how `get_items` behaves on a wildcard; no proof here uses it.
   */
  lemma UnderscoreFilterMatchesAnyName(name: string)
    requires name != []
    ensures Like(Lower(name), Lower("%" + "_" + "%"))
  {
    var s := Lower(name);
    assert Lower("%" + "_" + "%") == "%_%";
    LikePercentMatchesAll(s[1..]);
    assert "%_%"[1..] == "_%" && "_%"[1..] == "%";
  }

  // ---------------------------------------------------------------------------
  // GET /items filters
  // ---------------------------------------------------------------------------

  /** The query parameters of `GET /items`; each is optional. */
  datatype Filter = Filter(
    found: Option<bool>,
    category: Option<string>,
    region: Option<string>,
    name: Option<string>)

  /** One `AND ...` clause of the WHERE that `get_items` builds. */
  datatype Clause =
    | FoundIs(b: bool)
    | CategoryIs(c: string)
    | RegionIs(r: string)
    | NameLike(pattern: string)

  /** The row satisfies the clause, as the database evaluates it. */
  predicate Holds(it: Item, c: Clause) {
    match c
    case FoundIs(b) => it.found == b
    case CategoryIs(k) => it.category == k
    case RegionIs(r) => it.region == r
    case NameLike(p) => Like(Lower(it.name), Lower(p))
  }

  /** Python truthiness of an optional string parameter: present and non-empty. */
  predicate Given(o: Option<string>) {
    o.Some? && o.value != []
  }

  /**
   * What `GET /items` promises of a returned row: every supplied filter holds.
   * A `found` of false is a filter, an empty category, region or name is not.
   */
  predicate Matches(it: Item, f: Filter) {
    && (f.found.Some? ==> it.found == f.found.value)
    && (Given(f.category) ==> it.category == f.category.value)
    && (Given(f.region) ==> it.region == f.region.value)
    && (Given(f.name) ==> Like(Lower(it.name), Lower("%" + f.name.value + "%")))
  }

  /**
   * The WHERE clause of `get_items`, appended one condition at a time; a row
   * satisfies all of the conditions exactly when it matches the filter.
   */
  method BuildWhere(f: Filter) returns (clauses: seq<Clause>)
    ensures |clauses| <= 4
    ensures forall it: Item :: (forall c :: c in clauses ==> Holds(it, c)) <==> Matches(it, f)
  {
    clauses := [];
    if f.found.Some? {
      clauses := clauses + [FoundIs(f.found.value)];
    }
    if Given(f.category) {
      clauses := clauses + [CategoryIs(f.category.value)];
    }
    if Given(f.region) {
      clauses := clauses + [RegionIs(f.region.value)];
    }
    if Given(f.name) {
      clauses := clauses + [NameLike("%" + f.name.value + "%")];
    }
    assert forall c :: c in clauses ==>
      || (f.found.Some? && c == FoundIs(f.found.value))
      || (Given(f.category) && c == CategoryIs(f.category.value))
      || (Given(f.region) && c == RegionIs(f.region.value))
      || (Given(f.name) && c == NameLike("%" + f.name.value + "%"));
    forall it: Item
      ensures (forall c :: c in clauses ==> Holds(it, c)) <==> Matches(it, f)
    {
      if forall c :: c in clauses ==> Holds(it, c) {
        if f.found.Some? { assert Holds(it, FoundIs(f.found.value)); }
        if Given(f.category) { assert Holds(it, CategoryIs(f.category.value)); }
        if Given(f.region) { assert Holds(it, RegionIs(f.region.value)); }
        if Given(f.name) { assert Holds(it, NameLike("%" + f.name.value + "%")); }
      }
    }
  }
}
