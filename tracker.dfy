/**
 * The tracker's endpoints over its three tables: the `hk` catalog, the
 * `sessions` table and the `session_items` memberships. Each endpoint is one
 * atomic step on the store; the time it reads from the clock is a parameter.
 */
module Tracker {
  import opened Wrappers
  import opened Http
  import opened Text
  import opened Catalog
  import opened Stats
  import opened Sessions

  const ItemNotFound: string := "Item not found"
  const SessionNotFound: string := "Session not found"
  const SavedSession: string := "Cannot modify a saved session"
  const AlreadyInSession: string := "Item already in session"
  const NotInSession: string := "Item not in session"

  /** The name a new session gets: the one supplied, unless it is missing or empty. */
  function SessionName(name: Option<string>, id: int): (r: string)
    ensures r != []
    ensures name.Some? && name.value != [] ==> r == name.value
    ensures (name.None? || name.value == []) && id >= 0 ==>
      && |r| > 8 && r[..8] == "Session "
      && (forall i :: 8 <= i < |r| ==> IsDigit(r[i]))
      && DigitsValue(r[8..]) == id
  {
    if name.Some? && name.value != [] then name.value
    else
      var r := "Session " + IntToString(id);
      if id >= 0 then
        NatToStringRoundTrip(id);
        assert r[8..] == NatToString(id);
        r
      else r
  }

  class Store {
    /** The `hk` table, in id order. */
    var items: seq<Item>
    /** The `sessions` table, by id. */
    var sessions: map<int, SessionRow>
    /** The `session_items` table. */
    var members: set<Membership>

    /**
     * The ids of `hk` are unique; every membership names an existing session
     * and an existing item; and an item is in a session at most once.
     */
    ghost predicate Valid()
      reads this
    {
      && IdsAscending(items)
      && (forall m :: m in members ==> m.sessionId in sessions && HasItem(items, m.itemId))
      && UniquePairs(members)
    }

    /** A store over a freshly loaded catalog, with no sessions. */
    constructor(catalog: seq<Item>)
      requires IdsAscending(catalog)
      ensures Valid()
      ensures items == catalog && sessions == map[] && members == {}
    {
      items := catalog;
      sessions := map[];
      members := {};
    }

    // -------------------------------------------------------------------------
    // Items
    // -------------------------------------------------------------------------

    /**
     * `GET /items`: the rows satisfying every clause the filter produces, in id
     * order. Exactly the matching rows are returned, none twice.
     */
    method GetItems(f: Filter) returns (r: seq<Item>)
      requires Valid()
      ensures forall it :: it in r <==> it in items && Matches(it, f)
      ensures IdsAscending(r)
    {
      var clauses := BuildWhere(f);
      r := [];
      for n := 0 to |items|
        invariant forall it :: it in r <==> it in items[..n] && Matches(it, f)
        invariant IdsAscending(r)
        invariant n < |items| ==> forall j :: 0 <= j < |r| ==> r[j].id < items[n].id
      {
        var it := items[n];
        if forall c :: c in clauses ==> Holds(it, c) {
          r := r + [it];
        }
        assert items[..n + 1] == items[..n] + [it];
        if n + 1 < |items| {
          assert it.id < items[n + 1].id;
        }
      }
      assert items[..|items|] == items;
    }

    /** The position of the row with the given id, if there is one. */
    method Find(id: int) returns (k: Option<nat>)
      requires Valid()
      ensures k.Some? <==> HasItem(items, id)
      ensures k.Some? ==> k.value < |items| && items[k.value].id == id
    {
      for n := 0 to |items|
        invariant forall j :: 0 <= j < n ==> items[j].id != id
      {
        if items[n].id == id {
          return Some(n);
        }
      }
      return None;
    }

    /** `GET /items/{id}`: the row with that id, or 404. */
    method GetItem(id: int) returns (r: Result<Item, ApiError>)
      requires Valid()
      ensures r.Ok? <==> HasItem(items, id)
      ensures r.Ok? ==> r.value in items && r.value.id == id
      ensures r.Err? ==> r.error == NotFound(ItemNotFound)
    {
      var k := Find(id);
      if k.None? {
        return Err(NotFound(ItemNotFound));
      }
      return Ok(items[k.value]);
    }

    /**
     * `PATCH /items/{id}`: sets the found flag of that row and returns it. An
     * unknown id is a 404 and changes nothing; no other row and no session
     * changes either way.
     */
    method UpdateItem(id: int, found: bool) returns (r: Result<Item, ApiError>)
      requires Valid()
      modifies this
      ensures Valid()
      ensures sessions == old(sessions) && members == old(members)
      ensures r.Err? <==> !HasItem(old(items), id)
      ensures r.Err? ==> r.error == NotFound(ItemNotFound) && items == old(items)
      ensures |items| == |old(items)|
      ensures forall j :: 0 <= j < |items| ==>
        items[j] == if old(items)[j].id == id then old(items)[j].(found := found) else old(items)[j]
      ensures r.Ok? ==> r.value in items && r.value.id == id && r.value.found == found
    {
      var k := Find(id);
      if k.None? {
        return Err(NotFound(ItemNotFound));
      }
      var i := k.value;
      ghost var before := items;
      items := items[i := items[i].(found := found)];
      forall m | m in members ensures HasItem(items, m.itemId) {
        var j :| 0 <= j < |before| && before[j].id == m.itemId;
        assert items[j].id == m.itemId;
      }
      r := Ok(items[i]);
    }

    // -------------------------------------------------------------------------
    // Lists and statistics
    // -------------------------------------------------------------------------

    /** `GET /categories`: each category of the catalog once, in ascending order. */
    method GetCategories() returns (r: seq<string>)
      requires Valid()
      ensures StrictlySorted(r)
      ensures forall k :: k in r <==> exists it :: it in items && it.category == k
    {
      r := DistinctKeys(items, ByCategory);
      forall k ensures k in r <==> exists it :: it in items && it.category == k {
        if k in r {
          var j :| 0 <= j < |items| && KeyOf(items[j], ByCategory) == k;
          assert items[j] in items;
        }
        if exists it :: it in items && it.category == k {
          var it :| it in items && it.category == k;
          var j :| 0 <= j < |items| && items[j] == it;
          assert KeyOf(items[j], ByCategory) == k;
        }
      }
    }

    /** `GET /regions`: each region of the catalog once, in ascending order. */
    method GetRegions() returns (r: seq<string>)
      requires Valid()
      ensures StrictlySorted(r)
      ensures forall k :: k in r <==> exists it :: it in items && it.region == k
    {
      r := DistinctKeys(items, ByRegion);
      forall k ensures k in r <==> exists it :: it in items && it.region == k {
        if k in r {
          var j :| 0 <= j < |items| && KeyOf(items[j], ByRegion) == k;
          assert items[j] in items;
        }
        if exists it :: it in items && it.region == k {
          var it :| it in items && it.region == k;
          var j :| 0 <= j < |items| && items[j] == it;
          assert KeyOf(items[j], ByRegion) == k;
        }
      }
    }

    /**
     * `GET /stats`: the counts over the whole catalog, with the completion
     * percentage added (0 for an empty catalog, where both sums are NULL).
     */
    method GetStats() returns (s: OverallStats)
      requires Valid()
      ensures s.total == |items|
      ensures s.total == 0 <==> s.foundCount.None?
      ensures s.total > 0 ==> s.foundCount == Some(CountRows(items, FoundOnly))
      ensures s.total == 0 ==> s.notFoundCount.None? && s.completionPercent == 0.0
      ensures s.total > 0 ==> s.notFoundCount.Some? && s.notFoundCount.value == s.total - s.foundCount.value
      ensures 0.0 <= s.completionPercent <= 100.0
      ensures s.total > 0 ==> (s.completionPercent == 100.0 <==> s.foundCount.value == s.total)
      ensures s.total > 0 ==> s.completionPercent == Completion(s.foundCount.value, s.total)
    {
      var row := Overall(items);
      OverallConsistent(items);
      var percent := if row.total > 0 then Completion(row.foundCount.value, row.total) else 0.0;
      s := row.(completionPercent := percent);
      if s.total > 0 {
        CompletionBounds(s.foundCount.value, s.total);
      }
    }

    /**
     * `GET /stats/regions` and `GET /stats/categories`: the grouped counts,
     * each with its completion percentage added in the `for row in result`
     * loop. One entry per distinct key, in key order; the groups partition
     * the catalog.
     */
    method GetGroupStats(d: Dimension) returns (r: seq<GroupStat>)
      requires Valid()
      ensures |r| == |DistinctKeys(items, d)|
      ensures forall i :: 0 <= i < |r| ==> r[i].key == DistinctKeys(items, d)[i]
      ensures forall i, j :: 0 <= i < j < |r| ==> Below(r[i].key, r[j].key)
      ensures forall i :: 0 <= i < |r| ==> r[i].total >= 1 && r[i].foundCount + r[i].notFoundCount == r[i].total
      ensures forall i :: 0 <= i < |r| ==> 0.0 <= r[i].completionPercent <= 100.0
      ensures SumTotals(r) == |items|
      ensures SumFound(r) == CountRows(items, FoundOnly)
      ensures forall i :: 0 <= i < |r| ==>
        && r[i].total == Tally(items, d, r[i].key, All)
        && r[i].foundCount == Tally(items, d, r[i].key, FoundOnly)
        && r[i].notFoundCount == Tally(items, d, r[i].key, MissingOnly)
        && r[i].completionPercent == Completion(r[i].foundCount, r[i].total)
    {
      var rows := GroupCounts(items, d);
      r := [];
      for n := 0 to |rows|
        invariant |r| == n
        invariant forall i :: 0 <= i < n ==> r[i] == WithCompletion(rows[i])
      {
        var row := rows[n];
        var percent := if row.total > 0 then Completion(row.foundCount, row.total) else 0.0;
        r := r + [GroupStat(row.key, row.total, row.foundCount, row.notFoundCount, percent)];
      }
      forall i | 0 <= i < |r|
        ensures r[i].key == DistinctKeys(items, d)[i]
        ensures r[i].total >= 1 && r[i].foundCount + r[i].notFoundCount == r[i].total
        ensures 0.0 <= r[i].completionPercent <= 100.0
      {
        GroupStatConsistent(items, d, i);
      }
      GroupStatsPartition(items, d, r);
    }

    // -------------------------------------------------------------------------
    // Sessions
    // -------------------------------------------------------------------------

    /**
     * `d` is what `GET /sessions/{id}` answers for the current state: the
     * session's own row, and the catalog rows of its items in the order they
     * were added, each once, none left out.
     */
    ghost predicate Describes(d: SessionDetail, id: int)
      reads this
    {
      && id in sessions && d.id == id
      && d.name == sessions[id].name && d.createdAt == sessions[id].createdAt && d.savedAt == sessions[id].savedAt
      && d.itemCount == |d.items|
      && (forall i, j :: 0 <= i < j < |d.items| ==> d.items[i].addedAt <= d.items[j].addedAt)
      && (forall i, j :: 0 <= i < j < |d.items| ==> d.items[i].item.id != d.items[j].item.id)
      && (forall i :: 0 <= i < |d.items| ==>
            d.items[i].item in items && Membership(id, d.items[i].item.id, d.items[i].addedAt) in members)
      && (forall m :: m in members && m.sessionId == id ==>
            exists i :: 0 <= i < |d.items| && d.items[i].item.id == m.itemId && d.items[i].addedAt == m.addedAt)
    }

    /** `GET /sessions/{id}`: the session with its items ordered by when they were added, or 404. */
    method GetSession(id: int) returns (r: Result<SessionDetail, ApiError>)
      requires Valid()
      ensures r.Ok? <==> id in sessions
      ensures r.Err? ==> r.error == NotFound(SessionNotFound)
      ensures r.Ok? ==> Describes(r.value, id)
      ensures r.Ok? ==> |r.value.items| == |Of(members, id)|
    {
      if id !in sessions {
        return Err(NotFound(SessionNotFound));
      }
      var ordered := OrderByAdded(Of(members, id));
      var entries: seq<SessionEntry> := [];
      for n := 0 to |ordered|
        invariant |entries| == n
        invariant forall i :: 0 <= i < n ==>
          && entries[i].item in items
          && entries[i].item.id == ordered[i].itemId && entries[i].addedAt == ordered[i].addedAt
      {
        assert ordered[n] in ordered;
        var k := Find(ordered[n].itemId);
        entries := entries + [SessionEntry(items[k.value], ordered[n].addedAt)];
      }
      var row := sessions[id];
      EntriesFollowOrder(members, id, ordered, entries);
      r := Ok(SessionDetail(id, row.name, row.createdAt, row.savedAt, entries, |entries|));
    }

    /**
     * `GET /sessions`: every session once, newest first, with its row and the
     * number of items it holds.
     */
    method GetSessions() returns (r: seq<SessionSummary>)
      requires Valid()
      ensures forall id :: id in sessions <==> exists i :: 0 <= i < |r| && r[i].id == id
      ensures forall i, j :: 0 <= i < j < |r| ==> r[i].id != r[j].id
      ensures forall i :: 0 <= i < |r| ==>
        && r[i].id in sessions
        && r[i] == SessionSummary(r[i].id, sessions[r[i].id].name, sessions[r[i].id].createdAt,
                                  sessions[r[i].id].savedAt, |Of(members, r[i].id)|)
      ensures forall i, j :: 0 <= i < j < |r| ==> r[i].createdAt >= r[j].createdAt
    {
      var ordered := OrderByCreatedDesc(sessions);
      r := [];
      for n := 0 to |ordered|
        invariant |r| == n
        invariant forall i :: 0 <= i < n ==> r[i].id == ordered[i] && ordered[i] in sessions
        invariant forall i :: 0 <= i < n ==>
          r[i] == SessionSummary(r[i].id, sessions[r[i].id].name, sessions[r[i].id].createdAt,
                                 sessions[r[i].id].savedAt, |Of(members, r[i].id)|)
      {
        var id := ordered[n];
        assert id in ordered;
        var row := sessions[id];
        r := r + [SessionSummary(id, row.name, row.createdAt, row.savedAt, |Of(members, id)|)];
      }
      forall id | id in sessions ensures exists i :: 0 <= i < |r| && r[i].id == id {
        assert id in ordered;
        var i :| 0 <= i < |ordered| && ordered[i] == id;
      }
    }

    /**
     * `POST /sessions`: a new, unsaved, empty session under the id one above
     * the largest in use (1 for the first), named as supplied or `Session <id>`.
     */
    method CreateSession(name: Option<string>, now: nat) returns (r: SessionSummary)
      requires Valid()
      modifies this
      ensures Valid()
      ensures old(sessions) == map[] ==> r.id == 1
      ensures old(sessions) != map[] ==> r.id - 1 in old(sessions)
      ensures forall k :: k in old(sessions) ==> k < r.id
      ensures r.id !in old(sessions)
      ensures r == SessionSummary(r.id, SessionName(name, r.id), now, None, 0)
      ensures sessions == old(sessions)[r.id := SessionRow(r.name, now, None)]
      ensures items == old(items) && members == old(members)
      ensures Of(members, r.id) == {}
    {
      var largest: Option<int> := None;
      var pending := sessions.Keys;
      while pending != {}
        invariant pending <= sessions.Keys
        invariant largest.None? ==> pending == sessions.Keys
        invariant largest.Some? ==> largest.value in sessions
        invariant largest.Some? ==> forall k :: k in sessions && k !in pending ==> k <= largest.value
        invariant sessions == old(sessions) && items == old(items) && members == old(members)
        decreases |pending|
      {
        ghost var some := SomeElement(pending);
        var k :| k in pending;
        if largest.None? || k > largest.value {
          largest := Some(k);
        }
        pending := pending - {k};
      }
      var id := if largest.None? then 1 else largest.value + 1;
      if largest.None? {
        assert sessions.Keys == {};
      }
      var n := SessionName(name, id);
      sessions := sessions[id := SessionRow(n, now, None)];
      r := SessionSummary(id, n, now, None, 0);
    }

    /** `DELETE /sessions/{id}`: removes the session and all of its memberships, or 404. */
    method DeleteSession(id: int) returns (r: Result<int, ApiError>)
      requires Valid()
      modifies this
      ensures Valid()
      ensures items == old(items)
      ensures id !in old(sessions) ==> r == Err(NotFound(SessionNotFound)) && sessions == old(sessions) && members == old(members)
      ensures id in old(sessions) ==> r == Ok(id) && sessions == old(sessions) - {id} && members == old(members) - Of(old(members), id)
    {
      if id !in sessions {
        return Err(NotFound(SessionNotFound));
      }
      members := members - Of(members, id);
      sessions := sessions - {id};
      r := Ok(id);
    }

    /**
     * `POST /sessions/{id}/save`: stamps the session as saved now, whether or
     * not it was saved before, and returns it; 404 for an unknown session.
     */
    method SaveSession(id: int, now: nat) returns (r: Result<SessionDetail, ApiError>)
      requires Valid()
      modifies this
      ensures Valid()
      ensures items == old(items) && members == old(members)
      ensures id !in old(sessions) ==> r == Err(NotFound(SessionNotFound)) && sessions == old(sessions)
      ensures id in old(sessions) ==>
        && sessions == old(sessions)[id := old(sessions)[id].(savedAt := Some(now))]
        && r.Ok? && Describes(r.value, id)
    {
      if id !in sessions {
        return Err(NotFound(SessionNotFound));
      }
      sessions := sessions[id := sessions[id].(savedAt := Some(now))];
      r := GetSession(id);
    }

    /**
     * `POST /sessions/{id}/items`: the checks run in order (unknown session,
     * saved session, unknown item, item already there); past them exactly one
     * membership is added, stamped now, and no other session changes.
     */
    method AddSessionItem(sid: int, itemId: int, now: nat) returns (r: Result<SessionDetail, ApiError>)
      requires Valid()
      modifies this
      ensures Valid()
      ensures items == old(items) && sessions == old(sessions)
      ensures sid !in old(sessions) ==> r == Err(NotFound(SessionNotFound))
      ensures sid in old(sessions) && old(sessions)[sid].savedAt.Some? ==> r == Err(BadRequest(SavedSession))
      ensures sid in old(sessions) && old(sessions)[sid].savedAt.None? && !HasItem(old(items), itemId) ==>
        r == Err(NotFound(ItemNotFound))
      ensures (sid in old(sessions) && old(sessions)[sid].savedAt.None? && HasItem(old(items), itemId)
               && IsMember(old(members), sid, itemId)) ==> r == Err(BadRequest(AlreadyInSession))
      ensures r.Err? ==> members == old(members)
      ensures r.Ok? <==> (sid in old(sessions) && old(sessions)[sid].savedAt.None? && HasItem(old(items), itemId)
                          && !IsMember(old(members), sid, itemId))
      ensures r.Ok? ==> members == old(members) + {Membership(sid, itemId, now)} && Describes(r.value, sid)
      ensures forall s :: s != sid ==> Of(members, s) == Of(old(members), s)
    {
      if sid !in sessions {
        return Err(NotFound(SessionNotFound));
      }
      if sessions[sid].savedAt.Some? {
        return Err(BadRequest(SavedSession));
      }
      var k := Find(itemId);
      if k.None? {
        return Err(NotFound(ItemNotFound));
      }
      if exists m :: m in members && m.sessionId == sid && m.itemId == itemId {
        return Err(BadRequest(AlreadyInSession));
      }
      members := members + {Membership(sid, itemId, now)};
      r := GetSession(sid);
    }

    /**
     * `DELETE /sessions/{id}/items/{item_id}`: 404 for an unknown session, 400
     * for a saved one, 404 when the item is not in it; otherwise exactly that
     * membership is removed.
     */
    method RemoveSessionItem(sid: int, itemId: int) returns (r: Result<SessionDetail, ApiError>)
      requires Valid()
      modifies this
      ensures Valid()
      ensures items == old(items) && sessions == old(sessions)
      ensures sid !in old(sessions) ==> r == Err(NotFound(SessionNotFound))
      ensures sid in old(sessions) && old(sessions)[sid].savedAt.Some? ==> r == Err(BadRequest(SavedSession))
      ensures sid in old(sessions) && old(sessions)[sid].savedAt.None? && !IsMember(old(members), sid, itemId) ==>
        r == Err(NotFound(NotInSession))
      ensures r.Err? ==> members == old(members)
      ensures r.Ok? <==> sid in old(sessions) && old(sessions)[sid].savedAt.None? && IsMember(old(members), sid, itemId)
      ensures r.Ok? ==> (Describes(r.value, sid) && !IsMember(members, sid, itemId)
                         && exists m :: m in old(members) && m.sessionId == sid && m.itemId == itemId && members == old(members) - {m})
    {
      if sid !in sessions {
        return Err(NotFound(SessionNotFound));
      }
      if sessions[sid].savedAt.Some? {
        return Err(BadRequest(SavedSession));
      }
      if !exists m :: m in members && m.sessionId == sid && m.itemId == itemId {
        return Err(NotFound(NotInSession));
      }
      ghost var gone :| gone in members && gone.sessionId == sid && gone.itemId == itemId;
      members := set m | m in members && !(m.sessionId == sid && m.itemId == itemId);
      assert members == old(members) - {gone};
      r := GetSession(sid);
    }

    /** `POST /sessions/{id}/clear`: 404 for an unknown session, 400 for a saved one; otherwise it is emptied. */
    method ClearSession(sid: int) returns (r: Result<SessionDetail, ApiError>)
      requires Valid()
      modifies this
      ensures Valid()
      ensures items == old(items) && sessions == old(sessions)
      ensures sid !in old(sessions) ==> r == Err(NotFound(SessionNotFound))
      ensures sid in old(sessions) && old(sessions)[sid].savedAt.Some? ==> r == Err(BadRequest(SavedSession))
      ensures r.Err? ==> members == old(members)
      ensures r.Ok? <==> sid in old(sessions) && old(sessions)[sid].savedAt.None?
      ensures r.Ok? ==> (members == old(members) - Of(old(members), sid) && Of(members, sid) == {}
                         && Describes(r.value, sid) && r.value.items == [])
    {
      if sid !in sessions {
        return Err(NotFound(SessionNotFound));
      }
      if sessions[sid].savedAt.Some? {
        return Err(BadRequest(SavedSession));
      }
      members := members - Of(members, sid);
      r := GetSession(sid);
    }
  }
}
