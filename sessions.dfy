/**
 * The rows of the `sessions` and `session_items` tables, and the bodies the
 * session endpoints answer with. Timestamps are readings of an abstract clock.
 */
module Sessions {
  import opened Wrappers
  import opened Catalog

  /** One row of `sessions`, keyed by its id. `savedAt` is NULL until the session is saved. */
  datatype SessionRow = SessionRow(name: string, createdAt: nat, savedAt: Option<nat>)

  /** One row of `session_items`: the item `itemId` was added to session `sessionId` at `addedAt`. */
  datatype Membership = Membership(sessionId: int, itemId: int, addedAt: nat)

  /** An entry of `GET /sessions`. */
  datatype SessionSummary = SessionSummary(id: int, name: string, createdAt: nat, savedAt: Option<nat>, itemCount: nat)

  /** An item of a session as `GET /sessions/{id}` lists it: the catalog row and when it was added. */
  datatype SessionEntry = SessionEntry(item: Item, addedAt: nat)

  /** The body of `GET /sessions/{id}`. */
  datatype SessionDetail = SessionDetail(
    id: int,
    name: string,
    createdAt: nat,
    savedAt: Option<nat>,
    items: seq<SessionEntry>,
    itemCount: nat)

  /** The memberships of one session (`WHERE si.session_id = ?`). */
  function Of(members: set<Membership>, sessionId: int): set<Membership> {
    set m | m in members && m.sessionId == sessionId
  }

  /** At most one membership per (session, item) pair: the `UNIQUE(session_id, item_id)` constraint. */
  predicate UniquePairs(members: set<Membership>) {
    forall a, b :: a in members && b in members && a.sessionId == b.sessionId && a.itemId == b.itemId ==> a == b
  }

  predicate IsMember(members: set<Membership>, sessionId: int, itemId: int) {
    exists m :: m in members && m.sessionId == sessionId && m.itemId == itemId
  }

  /** A non-empty set of memberships has one added no later than any other. */
  lemma {:induction false} EarliestExists(s: set<Membership>)
    requires s != {}
    ensures exists m :: m in s && forall n :: n in s ==> m.addedAt <= n.addedAt
    decreases |s|
  {
    var x :| x in s;
    var rest := s - {x};
    if rest != {} {
      EarliestExists(rest);
      var m :| m in rest && forall n :: n in rest ==> m.addedAt <= n.addedAt;
      if x.addedAt < m.addedAt {
        assert forall n :: n in s ==> x.addedAt <= n.addedAt;
      } else {
        assert forall n :: n in s ==> m.addedAt <= n.addedAt;
      }
    } else {
      assert s == {x};
    }
  }

  /** A non-empty set of session ids has one whose session was created no earlier than any other. */
  lemma {:induction false} LatestExists(ids: set<int>, sessions: map<int, SessionRow>)
    requires ids != {}
    requires ids <= sessions.Keys
    ensures exists k :: k in ids && forall j :: j in ids ==> sessions[j].createdAt <= sessions[k].createdAt
    decreases |ids|
  {
    var x := SomeElement(ids);
    var rest := ids - {x};
    if rest != {} {
      LatestExists(rest, sessions);
      var k :| k in rest && forall j :: j in rest ==> sessions[j].createdAt <= sessions[k].createdAt;
      if sessions[k].createdAt < sessions[x].createdAt {
        assert forall j :: j in ids ==> sessions[j].createdAt <= sessions[x].createdAt;
      } else {
        assert forall j :: j in ids ==> sessions[j].createdAt <= sessions[k].createdAt;
      }
    } else {
      assert ids == {x};
    }
  }

  /**
   * `ORDER BY added_at`: the memberships listed once each, earliest first
   * (the order among equal timestamps is the database's choice).
   */
  method OrderByAdded(pending0: set<Membership>) returns (ordered: seq<Membership>)
    ensures |ordered| == |pending0|
    ensures forall m :: m in ordered <==> m in pending0
    ensures forall i, j :: 0 <= i < j < |ordered| ==> ordered[i] != ordered[j]
    ensures forall i, j :: 0 <= i < j < |ordered| ==> ordered[i].addedAt <= ordered[j].addedAt
  {
    var pending := pending0;
    ordered := [];
    while pending != {}
      invariant |ordered| + |pending| == |pending0|
      invariant forall m :: m in pending0 <==> m in pending || m in ordered
      invariant forall m :: m in ordered ==> m !in pending
      invariant forall i, j :: 0 <= i < j < |ordered| ==> ordered[i] != ordered[j]
      invariant forall i, j :: 0 <= i < j < |ordered| ==> ordered[i].addedAt <= ordered[j].addedAt
      invariant forall i, m :: 0 <= i < |ordered| && m in pending ==> ordered[i].addedAt <= m.addedAt
      decreases |pending|
    {
      EarliestExists(pending);
      var m :| m in pending && forall n :: n in pending ==> m.addedAt <= n.addedAt;
      assert forall i :: 0 <= i < |ordered| ==> ordered[i] in ordered;
      ordered := ordered + [m];
      pending := pending - {m};
    }
  }

  /**
   * `ORDER BY created_at DESC`: the session ids listed once each, newest
   * first (the order among equal timestamps is the database's choice).
   */
  method OrderByCreatedDesc(sessions: map<int, SessionRow>) returns (ordered: seq<int>)
    ensures forall k :: k in ordered <==> k in sessions
    ensures forall i :: 0 <= i < |ordered| ==> ordered[i] in sessions
    ensures forall i, j :: 0 <= i < j < |ordered| ==> ordered[i] != ordered[j]
    ensures forall i, j :: 0 <= i < j < |ordered| ==> sessions[ordered[i]].createdAt >= sessions[ordered[j]].createdAt
  {
    var pending := sessions.Keys;
    ordered := [];
    while pending != {}
      invariant pending <= sessions.Keys
      invariant forall k :: k in sessions <==> k in pending || k in ordered
      invariant forall k :: k in ordered ==> k !in pending
      invariant forall i, j :: 0 <= i < j < |ordered| ==> ordered[i] != ordered[j]
      invariant forall i, j :: 0 <= i < j < |ordered| ==> sessions[ordered[i]].createdAt >= sessions[ordered[j]].createdAt
      invariant forall i, k :: 0 <= i < |ordered| && k in pending ==> sessions[ordered[i]].createdAt >= sessions[k].createdAt
      decreases |pending|
    {
      LatestExists(pending, sessions);
      var k :| k in pending && forall j :: j in pending ==> sessions[j].createdAt <= sessions[k].createdAt;
      NewestNext(sessions, ordered, pending, k);
      ordered := ordered + [k];
      pending := pending - {k};
    }
  }

  /** Taking the newest pending session next keeps the list distinct and newest first. */
  lemma NewestNext(sessions: map<int, SessionRow>, ordered: seq<int>, pending: set<int>, k: int)
    requires pending <= sessions.Keys && k in pending
    requires forall j :: j in pending ==> sessions[j].createdAt <= sessions[k].createdAt
    requires forall j :: j in ordered ==> j in sessions && j !in pending
    requires forall i, j :: 0 <= i < j < |ordered| ==> ordered[i] != ordered[j]
    requires forall i, j :: 0 <= i < j < |ordered| ==> sessions[ordered[i]].createdAt >= sessions[ordered[j]].createdAt
    requires forall i, j :: 0 <= i < |ordered| && j in pending ==> sessions[ordered[i]].createdAt >= sessions[j].createdAt
    ensures var o := ordered + [k];
      && (forall i, j :: 0 <= i < j < |o| ==> o[i] != o[j])
      && (forall i, j :: 0 <= i < j < |o| ==> sessions[o[i]].createdAt >= sessions[o[j]].createdAt)
      && (forall i, j :: 0 <= i < |o| && j in pending - {k} ==> sessions[o[i]].createdAt >= sessions[j].createdAt)
  {
    assert forall i :: 0 <= i < |ordered| ==> ordered[i] in ordered;
  }

  /**
   * Entries that follow an ordering of one session's memberships pointwise
   * list exactly those memberships, each item once, earliest first.
   */
  lemma EntriesFollowOrder(members: set<Membership>, id: int, ordered: seq<Membership>, entries: seq<SessionEntry>)
    requires UniquePairs(members)
    requires forall m :: m in ordered <==> m in Of(members, id)
    requires forall i, j :: 0 <= i < j < |ordered| ==> ordered[i] != ordered[j]
    requires forall i, j :: 0 <= i < j < |ordered| ==> ordered[i].addedAt <= ordered[j].addedAt
    requires |entries| == |ordered|
    requires forall i :: 0 <= i < |ordered| ==>
      entries[i].item.id == ordered[i].itemId && entries[i].addedAt == ordered[i].addedAt
    ensures forall i, j :: 0 <= i < j < |entries| ==> entries[i].addedAt <= entries[j].addedAt
    ensures forall i, j :: 0 <= i < j < |entries| ==> entries[i].item.id != entries[j].item.id
    ensures forall i :: 0 <= i < |entries| ==> Membership(id, entries[i].item.id, entries[i].addedAt) in members
    ensures forall m :: m in members && m.sessionId == id ==>
      exists i :: 0 <= i < |entries| && entries[i].item.id == m.itemId && entries[i].addedAt == m.addedAt
  {
    forall i | 0 <= i < |entries| ensures Membership(id, entries[i].item.id, entries[i].addedAt) in members {
      assert ordered[i] in ordered;
      assert ordered[i] == Membership(id, entries[i].item.id, entries[i].addedAt);
    }
    forall i, j | 0 <= i < j < |entries| ensures entries[i].item.id != entries[j].item.id {
      assert ordered[i] in ordered && ordered[j] in ordered;
    }
    forall m | m in members && m.sessionId == id
      ensures exists i :: 0 <= i < |entries| && entries[i].item.id == m.itemId && entries[i].addedAt == m.addedAt
    {
      assert m in ordered;
      var i :| 0 <= i < |ordered| && ordered[i] == m;
    }
  }

  /** A non-empty set has an element. */
  lemma SomeElement<T>(s: set<T>) returns (x: T)
    requires s != {}
    ensures x in s
  {
    x :| x in s;
  }
}
