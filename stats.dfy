/**
 * The completion roll-ups of `GET /stats`, `GET /stats/regions` and
 * `GET /stats/categories`, and the distinct-value lists of `GET /regions`
 * and `GET /categories`, as functions of the `hk` table's rows.
 */
module Stats {
  import opened Wrappers
  import opened Text
  import opened Catalog

  /** The column a roll-up groups by. */
  datatype Dimension = ByRegion | ByCategory

  function KeyOf(it: Item, d: Dimension): string {
    match d
    case ByRegion => it.region
    case ByCategory => it.category
  }

  /** Which rows an aggregate counts: `COUNT(*)`, `SUM(CASE WHEN found ...)`, `SUM(CASE WHEN NOT found ...)`. */
  datatype Which = All | FoundOnly | MissingOnly

  predicate Counts(it: Item, w: Which) {
    match w
    case All => true
    case FoundOnly => it.found
    case MissingOnly => !it.found
  }

  /** The aggregate `w` over all rows. */
  function CountRows(rows: seq<Item>, w: Which): (n: nat)
    ensures n <= |rows|
  {
    if rows == [] then 0 else (if Counts(rows[0], w) then 1 else 0) + CountRows(rows[1..], w)
  }

  /** The aggregate `w` over the rows of one group (`GROUP BY` the dimension `d`, group `k`). */
  function Tally(rows: seq<Item>, d: Dimension, k: string, w: Which): (n: nat)
    ensures n <= CountRows(rows, w)
  {
    if rows == [] then 0
    else (if KeyOf(rows[0], d) == k && Counts(rows[0], w) then 1 else 0) + Tally(rows[1..], d, k, w)
  }

  /** `COUNT(*)` is the number of rows. */
  lemma {:induction false} CountAllIsLength(rows: seq<Item>)
    ensures CountRows(rows, All) == |rows|
  {
    if rows != [] {
      CountAllIsLength(rows[1..]);
    }
  }

  /** Every row is either found or not: found and not-found counts add up to the total. */
  lemma {:induction false} FoundAndMissingPartition(rows: seq<Item>)
    ensures CountRows(rows, FoundOnly) + CountRows(rows, MissingOnly) == |rows|
  {
    if rows != [] {
      FoundAndMissingPartition(rows[1..]);
    }
  }

  /** The same split inside one group. */
  lemma {:induction false} GroupFoundAndMissingPartition(rows: seq<Item>, d: Dimension, k: string)
    ensures Tally(rows, d, k, FoundOnly) + Tally(rows, d, k, MissingOnly) == Tally(rows, d, k, All)
  {
    if rows != [] {
      GroupFoundAndMissingPartition(rows[1..], d, k);
    }
  }

  /** A group named after a row's key holds at least that row. */
  lemma {:induction false} TallyOfPresentKey(rows: seq<Item>, d: Dimension, i: nat)
    requires i < |rows|
    ensures Tally(rows, d, KeyOf(rows[i], d), All) >= 1
  {
    if i > 0 {
      TallyOfPresentKey(rows[1..], d, i - 1);
    }
  }

  /** Setting one row's found flag moves the found count by at most that row. */
  lemma {:induction false} SetFoundCount(rows: seq<Item>, i: nat, v: bool)
    requires i < |rows|
    ensures CountRows(rows[i := rows[i].(found := v)], FoundOnly)
         == CountRows(rows, FoundOnly) - (if rows[i].found then 1 else 0) + (if v then 1 else 0)
  {
    if i > 0 {
      assert rows[i := rows[i].(found := v)][1..] == rows[1..][i - 1 := rows[i].(found := v)];
      SetFoundCount(rows[1..], i - 1, v);
    } else {
      assert rows[i := rows[i].(found := v)][1..] == rows[1..];
    }
  }

  // ---------------------------------------------------------------------------
  // completion percentage
  // ---------------------------------------------------------------------------

  /**
   * `round(found / total * 100, 2) if total > 0 else 0`, kept as an exact
   * rational (the rounding to two decimals is not modelled).
   */
  function Completion(found: nat, total: nat): (p: real)
    ensures total > 0 ==> p * total as real == found as real * 100.0
  {
    if total > 0 then (found as real / total as real) * 100.0 else 0.0
  }

  /** The percentage is within [0, 100], 0 exactly when nothing is found, 100 exactly when everything is. */
  lemma CompletionBounds(found: nat, total: nat)
    requires found <= total
    ensures 0.0 <= Completion(found, total) <= 100.0
    ensures total == 0 ==> Completion(found, total) == 0.0
    ensures total > 0 ==> (Completion(found, total) == 0.0 <==> found == 0)
    ensures total > 0 ==> (Completion(found, total) == 100.0 <==> found == total)
  {
    if total > 0 {
      var q := found as real / total as real;
      assert q * total as real == found as real;
      assert 0.0 <= q <= 1.0;
      if q == 1.0 {
        assert found as real == total as real;
      }
    }
  }

  // ---------------------------------------------------------------------------
  // GET /stats
  // ---------------------------------------------------------------------------

  /** The body of `GET /stats`; a SQL `SUM` over no rows is NULL, hence the options. */
  datatype OverallStats = OverallStats(
    total: nat,
    foundCount: Option<nat>,
    notFoundCount: Option<nat>,
    completionPercent: real)

  function Overall(rows: seq<Item>): (s: OverallStats)
    ensures s.total == |rows|
  {
    CountAllIsLength(rows);
    if rows == [] then OverallStats(0, None, None, 0.0)
    else
      var f := CountRows(rows, FoundOnly);
      OverallStats(|rows|, Some(f), Some(CountRows(rows, MissingOnly)), Completion(f, |rows|))
  }

  /**
   * The overall figures are consistent: on an empty table both sums are NULL and
   * completion is 0; otherwise not-found is total minus found, found is at most
   * total and completion lies in [0, 100].
   */
  lemma OverallConsistent(rows: seq<Item>)
    ensures var s := Overall(rows);
      && (s.total == 0 <==> s.foundCount.None?)
      && (s.total == 0 ==> s.notFoundCount.None? && s.completionPercent == 0.0)
      && (s.total > 0 ==>
            (s.notFoundCount.Some? && s.foundCount.value <= s.total
             && s.notFoundCount.value == s.total - s.foundCount.value))
      && 0.0 <= s.completionPercent <= 100.0
  {
    FoundAndMissingPartition(rows);
    CompletionBounds(CountRows(rows, FoundOnly), |rows|);
  }

  // ---------------------------------------------------------------------------
  // DISTINCT ... ORDER BY
  // ---------------------------------------------------------------------------

  predicate StrictlySorted(ks: seq<string>) {
    forall i, j :: 0 <= i < j < |ks| ==> Below(ks[i], ks[j])
  }

  /** Inserts `k` into a sorted list of distinct keys, unless it is already there. */
  function InsertKey(ks: seq<string>, k: string): (r: seq<string>)
    requires StrictlySorted(ks)
    ensures StrictlySorted(r)
    ensures forall x :: x in r <==> x in ks || x == k
  {
    if ks == [] then [k]
    else if k == ks[0] then ks
    else if Below(k, ks[0]) then
      assert forall j :: 0 < j < |ks| ==> Below(k, ks[j]) by {
        forall j | 0 < j < |ks| { BelowTransitive(k, ks[0], ks[j]); }
      }
      [k] + ks
    else
      BelowTotal(k, ks[0]);
      var rest := InsertKey(ks[1..], k);
      assert forall x :: x in rest ==> Below(ks[0], x);
      [ks[0]] + rest
  }

  /** Some row has `k` in the column `d`. */
  predicate HasKey(rows: seq<Item>, d: Dimension, k: string) {
    exists i :: 0 <= i < |rows| && KeyOf(rows[i], d) == k
  }

  lemma HasKeyCons(rows: seq<Item>, d: Dimension, k: string)
    requires rows != []
    ensures HasKey(rows, d, k) <==> KeyOf(rows[0], d) == k || HasKey(rows[1..], d, k)
  {
    if HasKey(rows[1..], d, k) {
      var i :| 0 <= i < |rows[1..]| && KeyOf(rows[1..][i], d) == k;
      assert KeyOf(rows[i + 1], d) == k;
    }
    if HasKey(rows, d, k) {
      var i :| 0 <= i < |rows| && KeyOf(rows[i], d) == k;
      if i > 0 {
        assert KeyOf(rows[1..][i - 1], d) == k;
      }
    }
  }

  /** `SELECT DISTINCT <column> FROM hk ORDER BY <column>`. */
  function DistinctKeys(rows: seq<Item>, d: Dimension): (ks: seq<string>)
    ensures StrictlySorted(ks)
    ensures forall k :: k in ks <==> HasKey(rows, d, k)
  {
    if rows == [] then []
    else
      var rest := DistinctKeys(rows[1..], d);
      var ks := InsertKey(rest, KeyOf(rows[0], d));
      assert forall k :: HasKey(rows, d, k) <==> KeyOf(rows[0], d) == k || HasKey(rows[1..], d, k) by {
        forall k ensures HasKey(rows, d, k) <==> KeyOf(rows[0], d) == k || HasKey(rows[1..], d, k) {
          HasKeyCons(rows, d, k);
        }
      }
      ks
  }

  // ---------------------------------------------------------------------------
  // GROUP BY ... ORDER BY
  // ---------------------------------------------------------------------------

  /** One row of the grouped SQL result, before the completion percentage is added. */
  datatype GroupCount = GroupCount(key: string, total: nat, foundCount: nat, notFoundCount: nat)

  /** One entry of `GET /stats/regions` or `GET /stats/categories`. */
  datatype GroupStat = GroupStat(key: string, total: nat, foundCount: nat, notFoundCount: nat, completionPercent: real)

  /** The grouped query: one row per distinct key, in key order, with its three aggregates. */
  function GroupCounts(rows: seq<Item>, d: Dimension): (gs: seq<GroupCount>)
    ensures |gs| == |DistinctKeys(rows, d)|
  {
    var ks := DistinctKeys(rows, d);
    seq(|ks|, i requires 0 <= i < |ks| =>
      GroupCount(ks[i], Tally(rows, d, ks[i], All), Tally(rows, d, ks[i], FoundOnly), Tally(rows, d, ks[i], MissingOnly)))
  }

  /** The completion percentage the endpoint adds to a grouped row. */
  function WithCompletion(g: GroupCount): GroupStat {
    GroupStat(g.key, g.total, g.foundCount, g.notFoundCount,
      if g.total > 0 then Completion(g.foundCount, g.total) else 0.0)
  }

  function SumTotals(gs: seq<GroupStat>): nat {
    if gs == [] then 0 else gs[0].total + SumTotals(gs[1..])
  }

  function SumFound(gs: seq<GroupStat>): nat {
    if gs == [] then 0 else gs[0].foundCount + SumFound(gs[1..])
  }

  /** The sum of the aggregate `w` over the groups named in `ks`. */
  function SumTally(rows: seq<Item>, d: Dimension, ks: seq<string>, w: Which): nat {
    if ks == [] then 0 else Tally(rows, d, ks[0], w) + SumTally(rows, d, ks[1..], w)
  }

  /** How often `k` occurs in `ks`. */
  function Occurrences(ks: seq<string>, k: string): nat {
    if ks == [] then 0 else (if ks[0] == k then 1 else 0) + Occurrences(ks[1..], k)
  }

  lemma {:induction false} OccursOnce(ks: seq<string>, k: string)
    requires StrictlySorted(ks) && k in ks
    ensures Occurrences(ks, k) == 1
  {
    if ks[0] == k {
      assert forall j :: 0 < j < |ks| ==> Below(ks[0], ks[j]);
      OccursNever(ks[1..], k);
    } else {
      OccursOnce(ks[1..], k);
    }
  }

  lemma {:induction false} OccursNever(ks: seq<string>, k: string)
    requires forall j :: 0 <= j < |ks| ==> Below(k, ks[j])
    ensures Occurrences(ks, k) == 0
  {
    if ks != [] {
      BelowIrreflexive(k);
      OccursNever(ks[1..], k);
    }
  }

  lemma {:induction false} SumTallyEmpty(d: Dimension, ks: seq<string>, w: Which)
    ensures SumTally([], d, ks, w) == 0
  {
    if ks != [] {
      SumTallyEmpty(d, ks[1..], w);
    }
  }

  /** Peeling the first row off every group at once. */
  lemma {:induction false} SumTallyPeel(rows: seq<Item>, d: Dimension, ks: seq<string>, w: Which)
    requires rows != []
    ensures SumTally(rows, d, ks, w)
         == SumTally(rows[1..], d, ks, w) + (if Counts(rows[0], w) then Occurrences(ks, KeyOf(rows[0], d)) else 0)
  {
    if ks != [] {
      SumTallyPeel(rows, d, ks[1..], w);
    }
  }

  /** Summing a group aggregate over distinct keys that cover every row gives the ungrouped aggregate. */
  lemma {:induction false} SumTallyCovers(rows: seq<Item>, d: Dimension, ks: seq<string>, w: Which)
    requires StrictlySorted(ks)
    requires forall i :: 0 <= i < |rows| ==> KeyOf(rows[i], d) in ks
    ensures SumTally(rows, d, ks, w) == CountRows(rows, w)
  {
    if rows == [] {
      SumTallyEmpty(d, ks, w);
    } else {
      SumTallyPeel(rows, d, ks, w);
      OccursOnce(ks, KeyOf(rows[0], d));
      assert forall i :: 0 <= i < |rows[1..]| ==> KeyOf(rows[1..][i], d) == KeyOf(rows[i + 1], d);
      SumTallyCovers(rows[1..], d, ks, w);
    }
  }

  lemma {:induction false} SumsOfGroups(rows: seq<Item>, d: Dimension, gs: seq<GroupStat>, ks: seq<string>)
    requires |gs| == |ks|
    requires forall i :: 0 <= i < |gs| ==> gs[i].total == Tally(rows, d, ks[i], All)
    requires forall i :: 0 <= i < |gs| ==> gs[i].foundCount == Tally(rows, d, ks[i], FoundOnly)
    ensures SumTotals(gs) == SumTally(rows, d, ks, All)
    ensures SumFound(gs) == SumTally(rows, d, ks, FoundOnly)
  {
    if gs != [] {
      SumsOfGroups(rows, d, gs[1..], ks[1..]);
    }
  }

  /**
   * The grouped statistics partition the table: group totals add up to the
   * number of rows and group found counts to the overall found count.
   */
  lemma GroupStatsPartition(rows: seq<Item>, d: Dimension, gs: seq<GroupStat>)
    requires |gs| == |GroupCounts(rows, d)|
    requires forall i :: 0 <= i < |gs| ==> gs[i] == WithCompletion(GroupCounts(rows, d)[i])
    ensures SumTotals(gs) == |rows|
    ensures SumFound(gs) == CountRows(rows, FoundOnly)
  {
    var ks := DistinctKeys(rows, d);
    SumsOfGroups(rows, d, gs, ks);
    SumTallyCovers(rows, d, ks, All);
    SumTallyCovers(rows, d, ks, FoundOnly);
    CountAllIsLength(rows);
  }

  /** Each grouped entry is a non-empty group whose counts are consistent and whose completion lies in [0, 100]. */
  lemma GroupStatConsistent(rows: seq<Item>, d: Dimension, i: nat)
    requires i < |GroupCounts(rows, d)|
    ensures var g := WithCompletion(GroupCounts(rows, d)[i]);
      && g.key == DistinctKeys(rows, d)[i]
      && g.total >= 1
      && g.foundCount + g.notFoundCount == g.total
      && 0.0 <= g.completionPercent <= 100.0
  {
    var ks := DistinctKeys(rows, d);
    var k := ks[i];
    assert k in ks;
    assert HasKey(rows, d, k);
    var j :| 0 <= j < |rows| && KeyOf(rows[j], d) == k;
    TallyOfPresentKey(rows, d, j);
    GroupFoundAndMissingPartition(rows, d, k);
    CompletionBounds(Tally(rows, d, k, FoundOnly), Tally(rows, d, k, All));
  }
}
