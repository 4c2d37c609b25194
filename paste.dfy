/**
 * The paste store: the `pastes` table as a map from id to record, and the
 * operations that insert a paste, read it (counting the view), sweep out the
 * pastes that can no longer be read, and count rows.
 *
 * Every instant, including the database's NOW(), is a parameter `now` in
 * integer milliseconds. Operations run one at a time.
 */
module PasteModel {
  import opened Base
  import opened Helpers

  /** What the handler passes to createPaste. */
  datatype CreatePasteData = CreatePasteData(content: string, ttlSeconds: Option<int>, maxViews: Option<int>)

  /** One row of the `pastes` table. */
  datatype Paste = Paste(
    id: string,
    content: string,
    ttlSeconds: Option<int>,
    maxViews: Option<int>,
    views: int,
    createdAt: int,
    expiresAt: Option<int>)

  /** The `pastes` table, keyed by its primary key. */
  type Table = map<string, Paste>

  /** Why an insert fails: the generated id is already a primary key. */
  datatype StoreError = DuplicateId

  // ---------------------------------------------------------------------------
  // The three row tests: read, sweep and statistics
  // ---------------------------------------------------------------------------

  /** The read test: neither time-expired nor out of views. */
  predicate IsLive(p: Paste, now: int) {
    !IsExpired(p.expiresAt, now) && !IsViewLimitExceeded(p.views, p.maxViews)
  }

  /** The sweep's WHERE clause: expiry set and reached, or a view limit set and reached. */
  predicate MatchesSweep(p: Paste, now: int) {
    (p.expiresAt.Some? && p.expiresAt.value <= now) || (p.maxViews.Some? && p.views >= p.maxViews.value)
  }

  /** The statistics' WHERE clause for an active row. */
  predicate CountsAsActive(p: Paste, now: int) {
    (p.expiresAt.None? || p.expiresAt.value > now) && (p.maxViews.None? || p.views < p.maxViews.value)
  }

  // ---------------------------------------------------------------------------
  // Table invariant
  // ---------------------------------------------------------------------------

  /** A view is only ever counted while the paste was below its limit. */
  predicate ViewsWithinLimit(p: Paste) {
    p.maxViews.None? || p.views <= p.maxViews.value || p.views == 0
  }

  /**
   * What every row written by this store satisfies: it sits under its own id,
   * a generated one; falsy limits were stored as null; the expiry was derived
   * once from the TTL at creation; and views never passed the limit.
   */
  predicate WellFormed(id: string, p: Paste) {
    && p.id == id
    && ValidId(id)
    && p.views >= 0
    && p.ttlSeconds == OrNull(p.ttlSeconds)
    && p.maxViews == OrNull(p.maxViews)
    && p.expiresAt == CalculateExpiry(p.ttlSeconds, p.createdAt)
    && ViewsWithinLimit(p)
  }

  ghost predicate TableInvariant(t: Table) {
    forall id :: id in t ==> WellFormed(id, t[id])
  }

  // ---------------------------------------------------------------------------
  // Specification of the operations on the table
  // ---------------------------------------------------------------------------

  /** The row the INSERT writes and returns. */
  function NewPaste(id: string, data: CreatePasteData, now: int): (p: Paste)
    requires ValidId(id)
    ensures WellFormed(id, p) && p.views == 0
  {
    Paste(id, data.content, OrNull(data.ttlSeconds), OrNull(data.maxViews), 0, now,
          CalculateExpiry(data.ttlSeconds, now))
  }

  /** What a read returns: nothing for a missing or non-live paste, else the row with one more view. */
  function ReadResult(t: Table, id: string, now: int): Option<Paste> {
    if id in t && IsLive(t[id], now) then Some(t[id].(views := t[id].views + 1)) else None
  }

  /** The table after a read: the counted view is written back; otherwise nothing changes. */
  function AfterRead(t: Table, id: string, now: int): (after: Table)
    ensures after.Keys == t.Keys
  {
    match ReadResult(t, id, now)
    case Some(p) => t[id := p]
    case None => t
  }

  /** The table after the sweep: the rows its WHERE clause does not match. */
  function Swept(t: Table, now: int): (kept: Table)
    ensures kept.Keys <= t.Keys
    ensures forall id :: id in kept ==> kept[id] == t[id]
  {
    map id | id in t && !MatchesSweep(t[id], now) :: t[id]
  }

  /** The ids the statistics count as active. */
  function ActiveIds(t: Table, now: int): (active: set<string>)
    ensures active <= t.Keys
  {
    set id | id in t && CountsAsActive(t[id], now)
  }

  // ---------------------------------------------------------------------------
  // The store
  // ---------------------------------------------------------------------------

  class PasteStore {
    var pastes: Table

    ghost predicate Valid()
      reads this
    {
      TableInvariant(pastes)
    }

    /** An empty table. */
    constructor ()
      ensures Valid() && pastes == map[]
    {
      pastes := map[];
    }

    /**
     * Generate an id from the random draws and insert a new row under it, with no
     * views yet. The primary key refuses an id already in use, and then nothing
     * is written.
     */
    method CreatePaste(data: CreatePasteData, draws: seq<nat>, now: int) returns (r: Result<Paste, StoreError>)
      requires Valid() && ValidDraws(draws)
      modifies this
      ensures Valid()
      ensures IdFromDraws(draws) in old(pastes) ==> r == Failure(DuplicateId) && pastes == old(pastes)
      ensures IdFromDraws(draws) !in old(pastes) ==>
        && r.Success?
        && r.value.id == IdFromDraws(draws)
        && r.value.content == data.content
        && r.value.views == 0
        && r.value.createdAt == now
        && r.value.ttlSeconds == OrNull(data.ttlSeconds)
        && r.value.maxViews == OrNull(data.maxViews)
        && r.value.expiresAt == CalculateExpiry(data.ttlSeconds, now)
        && pastes == old(pastes)[r.value.id := r.value]
    {
      var id := IdFromDraws(draws);
      if id in pastes {
        return Failure(DuplicateId);
      }
      var p := NewPaste(id, data, now);
      pastes := pastes[id := p];
      r := Success(p);
    }

    /**
     * Look a paste up at instant `now`. A missing or non-live paste gives nothing
     * and leaves the table alone; a live one has its view counted and is returned
     * as updated.
     */
    method GetPaste(id: string, now: int) returns (r: Option<Paste>)
      requires Valid()
      modifies this
      ensures Valid()
      ensures r == ReadResult(old(pastes), id, now)
      ensures pastes == AfterRead(old(pastes), id, now)
    {
      if id !in pastes {
        return None;
      }
      var paste := pastes[id];
      if paste.expiresAt.Some? && paste.expiresAt.value <= now {
        return None;
      }
      if Truthy(paste.maxViews) && paste.views >= paste.maxViews.value {
        return None;
      }
      pastes := pastes[id := paste.(views := paste.views + 1)];
      r := Some(paste.(views := paste.views + 1));
      ReadKeepsInvariant(old(pastes), id, now);
    }

    /** Delete every row that is time-expired or out of views at `now`. */
    method DeleteExpiredPastes(now: int)
      requires Valid()
      modifies this
      ensures Valid()
      ensures pastes == Swept(old(pastes), now)
    {
      pastes := map id | id in pastes && !MatchesSweep(pastes[id], now) :: pastes[id];
    }

    /** Count all rows and the rows that are active at `now`. */
    method GetStats(now: int) returns (total: nat, active: nat)
      ensures total == |pastes|
      ensures active == |ActiveIds(pastes, now)|
      ensures active <= total
    {
      total := |pastes|;
      active := |set id | id in pastes && CountsAsActive(pastes[id], now)|;
      ActiveAtMostTotal(pastes, now);
    }
  }

  // ---------------------------------------------------------------------------
  // Reads
  // ---------------------------------------------------------------------------

  /** The three cases of a read, and nothing but the one row's view count changes. */
  lemma ReadCases(t: Table, id: string, now: int)
    ensures id !in t ==> ReadResult(t, id, now).None? && AfterRead(t, id, now) == t
    ensures id in t && IsExpired(t[id].expiresAt, now) ==>
      ReadResult(t, id, now).None? && AfterRead(t, id, now) == t
    ensures id in t && IsViewLimitExceeded(t[id].views, t[id].maxViews) ==>
      ReadResult(t, id, now).None? && AfterRead(t, id, now) == t
    ensures id in t && IsLive(t[id], now) ==>
      && ReadResult(t, id, now) == Some(AfterRead(t, id, now)[id])
      && AfterRead(t, id, now)[id] == t[id].(views := t[id].views + 1)
    ensures AfterRead(t, id, now).Keys == t.Keys
    ensures forall other :: other in t && other != id ==> AfterRead(t, id, now)[other] == t[other]
  {
  }

  /** A read keeps every row well formed: a view is counted only below the limit. */
  lemma ReadKeepsInvariant(t: Table, id: string, now: int)
    requires TableInvariant(t)
    ensures TableInvariant(AfterRead(t, id, now))
  {
  }

  /** Under the invariant, a paste with a view limit never shows more views than the limit. */
  lemma ViewsNeverExceedLimit(t: Table, id: string)
    requires TableInvariant(t) && id in t && t[id].maxViews.Some? && t[id].maxViews.value >= 1
    ensures t[id].views <= t[id].maxViews.value
  {
  }

  /** The outcome of a series of reads of one id, in order, at the given instants. */
  datatype Session = Session(table: Table, results: seq<Option<Paste>>)

  function ReadSeries(t: Table, id: string, nows: seq<int>): (s: Session)
    ensures |s.results| == |nows|
    decreases |nows|
  {
    if nows == [] then Session(t, [])
    else
      var rest := ReadSeries(AfterRead(t, id, nows[0]), id, nows[1..]);
      Session(rest.table, [ReadResult(t, id, nows[0])] + rest.results)
  }

  /**
   * Reads before the expiry instant, no more of them than the views left, all
   * succeed, each returning the paste with the next view count.
   */
  lemma {:induction false} ReadsWithinLimit(t: Table, id: string, nows: seq<int>)
    requires id in t && t[id].maxViews.Some? && t[id].maxViews.value >= 1
    requires 0 <= t[id].views && t[id].views + |nows| <= t[id].maxViews.value
    requires forall i :: 0 <= i < |nows| ==> !IsExpired(t[id].expiresAt, nows[i])
    ensures var s := ReadSeries(t, id, nows);
      && id in s.table
      && s.table[id] == t[id].(views := t[id].views + |nows|)
      && forall i :: 0 <= i < |nows| ==> s.results[i] == Some(t[id].(views := t[id].views + i + 1))
    decreases |nows|
  {
    if nows != [] {
      var t' := AfterRead(t, id, nows[0]);
      assert t'[id] == t[id].(views := t[id].views + 1);
      forall i | 0 <= i < |nows[1..]| ensures !IsExpired(t'[id].expiresAt, nows[1..][i]) {
        assert nows[1..][i] == nows[i + 1];
      }
      ReadsWithinLimit(t', id, nows[1..]);
      var rest := ReadSeries(t', id, nows[1..]);
      forall i | 0 <= i < |nows| ensures ReadSeries(t, id, nows).results[i] == Some(t[id].(views := t[id].views + i + 1)) {
        if i > 0 {
          assert ReadSeries(t, id, nows).results[i] == rest.results[i - 1];
        }
      }
    }
  }

  /**
   * A fresh paste with view limit N, read N times before its expiry, succeeds
   * on reads 1..N with views 1..N, and read N + 1 finds nothing, at any instant.
   */
  lemma ReadableExactlyMaxViews(t: Table, id: string, nows: seq<int>, later: int)
    requires id in t && t[id].views == 0 && t[id].maxViews.Some?
    requires |nows| == t[id].maxViews.value >= 1
    requires forall i :: 0 <= i < |nows| ==> !IsExpired(t[id].expiresAt, nows[i])
    ensures var s := ReadSeries(t, id, nows);
      && (forall i :: 0 <= i < |nows| ==> s.results[i] == Some(t[id].(views := i + 1)))
      && ReadResult(s.table, id, later).None?
      && AfterRead(s.table, id, later) == s.table
  {
    ReadsWithinLimit(t, id, nows);
  }

  // ---------------------------------------------------------------------------
  // Creation
  // ---------------------------------------------------------------------------

  /**
   * A paste created with a TTL and view limit of at least 1 (or none) is read
   * at its creation instant: the read returns the same content with one view.
   */
  lemma CreateThenRead(t: Table, id: string, data: CreatePasteData, now: int)
    requires ValidId(id)
    requires data.ttlSeconds.None? || data.ttlSeconds.value >= 1
    requires data.maxViews.None? || data.maxViews.value >= 1
    ensures var p := NewPaste(id, data, now);
      ReadResult(t[id := p], id, now) == Some(p.(views := 1))
      && ReadResult(t[id := p], id, now).value.content == data.content
  {
  }

  /**
   * A paste created at `created` with TTL T seconds is readable one millisecond
   * before `created + T * 1000` (if views remain) and never from that instant on.
   */
  lemma TtlReadBoundary(t: Table, id: string, data: CreatePasteData, created: int)
    requires ValidId(id) && data.ttlSeconds.Some? && data.ttlSeconds.value >= 1
    requires data.maxViews.None? || data.maxViews.value >= 1
    ensures var t' := t[id := NewPaste(id, data, created)];
      && ReadResult(t', id, created + data.ttlSeconds.value * 1000 - 1).Some?
      && ReadResult(t', id, created + data.ttlSeconds.value * 1000).None?
  {
  }

  /** An insert under a fresh id keeps the table invariant and touches no other row. */
  lemma InsertKeepsInvariant(t: Table, id: string, data: CreatePasteData, now: int)
    requires TableInvariant(t) && ValidId(id) && id !in t
    ensures TableInvariant(t[id := NewPaste(id, data, now)])
    ensures forall other :: other in t ==> t[id := NewPaste(id, data, now)][other] == t[other]
  {
  }

  // ---------------------------------------------------------------------------
  // Sweep and statistics
  // ---------------------------------------------------------------------------

  /**
   * The statistics' active test is the exact complement of the sweep's test; and
   * for a row whose limit is not 0 both agree with the read test.
   */
  lemma PredicatesAgree(p: Paste, now: int)
    ensures CountsAsActive(p, now) <==> !MatchesSweep(p, now)
    ensures p.maxViews != Some(0) ==> (MatchesSweep(p, now) <==> !IsLive(p, now))
  {
  }

  /** The sweep removes exactly the rows a read would refuse and keeps the others as they are. */
  lemma SweepRemovesExactlyNonLive(t: Table, now: int)
    requires TableInvariant(t)
    ensures forall id :: id in Swept(t, now) <==> id in t && IsLive(t[id], now)
    ensures forall id :: id in Swept(t, now) ==> Swept(t, now)[id] == t[id]
  {
    forall id | id in t ensures MatchesSweep(t[id], now) <==> !IsLive(t[id], now) {
      PredicatesAgree(t[id], now);
    }
  }

  /** Sweeping twice at the same instant removes nothing the second time. */
  lemma SweepIdempotent(t: Table, now: int)
    ensures Swept(Swept(t, now), now) == Swept(t, now)
  {
  }

  /** The sweep keeps the table invariant. */
  lemma SweepKeepsInvariant(t: Table, now: int)
    requires TableInvariant(t)
    ensures TableInvariant(Swept(t, now))
  {
  }

  /** The active rows are among all rows. */
  lemma ActiveAtMostTotal(t: Table, now: int)
    ensures ActiveIds(t, now) <= t.Keys
    ensures |ActiveIds(t, now)| <= |t|
  {
    var active := ActiveIds(t, now);
    assert t.Keys == active + (t.Keys - active);
    assert |t.Keys| == |active| + |t.Keys - active|;
  }

  /** The active rows are exactly those the sweep keeps; after a sweep, every row is active. */
  lemma StatsAfterSweep(t: Table, now: int)
    ensures ActiveIds(t, now) == Swept(t, now).Keys
    ensures |ActiveIds(Swept(t, now), now)| == |Swept(t, now)|
  {
    forall id ensures id in ActiveIds(t, now) <==> id in Swept(t, now) {
      if id in t {
        PredicatesAgree(t[id], now);
      }
    }
    var s := Swept(t, now);
    forall id ensures id in ActiveIds(s, now) <==> id in s {
      if id in s {
        PredicatesAgree(s[id], now);
      }
    }
    assert ActiveIds(s, now) == s.Keys;
  }
}
