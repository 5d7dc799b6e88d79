/** The mail_outbox table: one durable row per queued message, and the SQL
    statements that move a row between pending, sending, sent and failed.
    Times are microseconds on one monotone clock. */
module Outbox {
  import opened Common

  const SECOND: int := 1_000_000
  const DEFAULT_OLDER_THAN: int := 15 * 60 * SECOND
  const DEFAULT_LEASE_LIMIT: nat := 10
  const MAX_LEASE_LIMIT: nat := 50

  datatype Status = Pending | Sending | Sent | Failed

  datatype Draft = Draft(userId: nat, kind: string, source: string, payloadRef: string,
                         recipients: string, sentCopyRef: string)

  datatype Row = Row(draft: Draft, status: Status, attempts: nat, nextAttemptAt: int,
                     lastCode: int, lastError: string, sentCopyMessage: Option<nat>,
                     createdAt: int, updatedAt: int)

  type Table = map<nat, Row>

  // ----- What each statement does to the table -----

  function NewRow(d: Draft, now: int): Row {
    Row(d.(kind := if d.kind == "" then "pgp" else d.kind), Pending, 0, now, 0, "", None, now, now)
  }

  predicate Ready(t: Table, now: int, locked: set<nat>, id: nat) {
    id in t && t[id].status.Pending? && t[id].nextAttemptAt <= now && id !in locked
  }

  function ReadyIds(t: Table, now: int, locked: set<nat>): set<nat> {
    set id | id in t && Ready(t, now, locked, id)
  }

  function EffectiveLimit(limit: int): nat {
    if limit <= 0 || limit > MAX_LEASE_LIMIT then DEFAULT_LEASE_LIMIT else limit
  }

  /** The rows that ORDER BY next_attempt_at LIMIT n FOR UPDATE SKIP LOCKED may return:
      ready, unlocked, distinct, earliest first, and as many as the limit allows. */
  ghost predicate IsLeaseChoice(t: Table, now: int, n: nat, locked: set<nat>, ids: seq<nat>) {
    && |ids| <= n
    && (forall i :: 0 <= i < |ids| ==> Ready(t, now, locked, ids[i]))
    && (forall i, j :: 0 <= i < j < |ids| ==> ids[i] != ids[j])
    && (forall i, j :: 0 <= i < j < |ids| ==> t[ids[i]].nextAttemptAt <= t[ids[j]].nextAttemptAt)
    && (forall id :: Ready(t, now, locked, id) && id !in ids ==>
          |ids| == n && forall i :: 0 <= i < |ids| ==> t[ids[i]].nextAttemptAt <= t[id].nextAttemptAt)
  }

  function MarkLeased(t: Table, ids: seq<nat>, now: int): Table {
    map id | id in t :: if id in ids && t[id].status.Pending? then t[id].(status := Sending, updatedAt := now) else t[id]
  }

  function SentRow(r: Row, code: int, now: int): Row {
    r.(status := Sent, updatedAt := now, lastCode := code, lastError := "")
  }

  /** The SQL backoff: 60 * 2^min(attempts, 8) seconds, on the attempts count before the update. */
  function RetryDelay(attempts: nat): (d: int)
    ensures d > 0
  {
    Pow2Monotone(0, Min(attempts, 8));
    60 * Pow2(Min(attempts, 8)) * SECOND
  }

  function FailedRow(r: Row, code: int, msg: string, transient: bool, now: int): Row {
    var r1 := r.(updatedAt := now, lastCode := code, lastError := msg, attempts := r.attempts + 1);
    if transient then r1.(status := Pending, nextAttemptAt := now + RetryDelay(r.attempts))
    else r1.(status := Failed)
  }

  function CopiedRow(r: Row, message: nat, now: int): Row {
    r.(sentCopyMessage := Some(message), draft := r.draft.(sentCopyRef := ""), updatedAt := now)
  }

  function RetriedRow(r: Row, now: int): Row {
    r.(status := Pending, attempts := 0, nextAttemptAt := now, lastError := "", updatedAt := now)
  }

  function EffectiveOlderThan(olderThan: int): int {
    if olderThan <= 0 then DEFAULT_OLDER_THAN else olderThan
  }

  predicate Stuck(r: Row, cutoff: int) {
    r.status.Sending? && r.updatedAt < cutoff
  }

  function Recovered(t: Table, cutoff: int, now: int): Table {
    map id | id in t :: if Stuck(t[id], cutoff) then t[id].(status := Pending, updatedAt := now) else t[id]
  }

  function WithStatus(t: Table, st: Status): set<nat> {
    set id | id in t && t[id].status == st
  }

  // ----- The store -----

  lemma {:induction false} EarliestExists(t: Table, ids: set<nat>)
    requires ids <= t.Keys && ids != {}
    ensures exists m :: m in ids && forall id :: id in ids ==> t[m].nextAttemptAt <= t[id].nextAttemptAt
    decreases |ids|
  {
    var x :| x in ids;
    if ids != {x} {
      var rest := ids - {x};
      EarliestExists(t, rest);
      var m :| m in rest && forall id :: id in rest ==> t[m].nextAttemptAt <= t[id].nextAttemptAt;
      var best := if t[m].nextAttemptAt <= t[x].nextAttemptAt then m else x;
      assert forall id :: id in ids ==> id == x || id in rest;
      assert best in ids && forall id :: id in ids ==> t[best].nextAttemptAt <= t[id].nextAttemptAt;
    }
  }

  /** A lease in progress: `ids` are the earliest ready rows in order, and `waiting` the other ready rows. */
  ghost predicate Picked(t: Table, now: int, locked: set<nat>, ids: seq<nat>, waiting: set<nat>) {
    && waiting <= t.Keys
    && (forall i :: 0 <= i < |ids| ==> Ready(t, now, locked, ids[i]) && ids[i] !in waiting)
    && (forall i, j :: 0 <= i < j < |ids| ==> ids[i] != ids[j] && t[ids[i]].nextAttemptAt <= t[ids[j]].nextAttemptAt)
    && (forall i, id :: 0 <= i < |ids| && id in waiting ==> t[ids[i]].nextAttemptAt <= t[id].nextAttemptAt)
    && (forall id :: id in waiting ==> Ready(t, now, locked, id))
    && (forall id :: Ready(t, now, locked, id) ==> id in waiting || id in ids)
  }

  lemma PickNext(t: Table, now: int, locked: set<nat>, ids: seq<nat>, waiting: set<nat>, m: nat)
    requires Picked(t, now, locked, ids, waiting)
    requires m in waiting && forall id :: id in waiting ==> t[m].nextAttemptAt <= t[id].nextAttemptAt
    ensures Picked(t, now, locked, ids + [m], waiting - {m})
  {
    var more := ids + [m];
    forall id | Ready(t, now, locked, id) ensures id in waiting - {m} || id in more {
      if id in ids {
        var i :| 0 <= i < |ids| && ids[i] == id;
        assert more[i] == id;
      } else if id == m {
        assert more[|ids|] == m;
      }
    }
  }

  class OutboxStore {
    var rows: Table

    constructor ()
      ensures rows == map[]
    {
      rows := map[];
    }

    method Insert(id: nat, d: Draft, now: int)
      requires id !in rows
      modifies this
      ensures rows == old(rows)[id := NewRow(d, now)]
      ensures rows[id].status.Pending? && rows[id].attempts == 0
      ensures rows[id].nextAttemptAt == rows[id].createdAt == rows[id].updatedAt == now
      ensures var stored := rows[id].draft;
              && stored.userId == d.userId && stored.source == d.source && stored.payloadRef == d.payloadRef
              && stored.recipients == d.recipients && stored.sentCopyRef == d.sentCopyRef
              && (d.kind != "" ==> stored.kind == d.kind) && (d.kind == "" ==> stored.kind == "pgp")
      ensures rows[id].lastCode == 0 && rows[id].lastError == "" && rows[id].sentCopyMessage.None?
    {
      rows := rows[id := NewRow(d, now)];
    }

    /** Locked rows are those another transaction holds at this moment; SKIP LOCKED passes over them. */
    method LeasePending(limit: int, locked: set<nat>, now: int) returns (ids: seq<nat>, leased: seq<Row>)
      modifies this
      ensures IsLeaseChoice(old(rows), now, EffectiveLimit(limit), locked, ids)
      ensures |leased| == |ids| && forall i :: 0 <= i < |ids| ==> leased[i] == old(rows)[ids[i]]
      ensures rows == MarkLeased(old(rows), ids, now)
      ensures |ids| <= (if 1 <= limit <= 50 then limit else 10)
      ensures forall i :: 0 <= i < |ids| ==>
                && ids[i] in old(rows) && ids[i] !in locked
                && leased[i].status.Pending? && leased[i].nextAttemptAt <= now
                && rows[ids[i]] == leased[i].(status := Sending, updatedAt := now)
      ensures |ids| < (if 1 <= limit <= 50 then limit else 10) ==>
                forall id :: id in old(rows) && id !in locked && old(rows)[id].status.Pending? && old(rows)[id].nextAttemptAt <= now ==> id in ids
      ensures rows.Keys == old(rows.Keys) && forall id :: id in rows && id !in ids ==> rows[id] == old(rows)[id]
    {
      var n := EffectiveLimit(limit);
      var waiting := ReadyIds(rows, now, locked);
      ids, leased := [], [];
      while |ids| < n && waiting != {}
        invariant rows == old(rows) && |leased| == |ids| <= n
        invariant forall i :: 0 <= i < |ids| ==> ids[i] in rows && leased[i] == rows[ids[i]]
        invariant Picked(rows, now, locked, ids, waiting)
        decreases |waiting|
      {
        EarliestExists(rows, waiting);
        var m :| m in waiting && forall id :: id in waiting ==> rows[m].nextAttemptAt <= rows[id].nextAttemptAt;
        PickNext(rows, now, locked, ids, waiting, m);
        ids, leased, waiting := ids + [m], leased + [rows[m]], waiting - {m};
      }
      rows := MarkLeased(rows, ids, now);
    }

    method MarkSent(id: nat, code: int, now: int)
      modifies this
      ensures rows == if id in old(rows) then old(rows)[id := SentRow(old(rows)[id], code, now)] else old(rows)
      ensures rows.Keys == old(rows.Keys) && forall k :: k in rows && k != id ==> rows[k] == old(rows)[k]
      ensures id in rows ==>
                && rows[id].status.Sent? && rows[id].lastCode == code && rows[id].lastError == "" && rows[id].updatedAt == now
                && rows[id].attempts == old(rows)[id].attempts && rows[id].draft == old(rows)[id].draft
                && rows[id].nextAttemptAt == old(rows)[id].nextAttemptAt
    {
      if id in rows {
        rows := rows[id := SentRow(rows[id], code, now)];
      }
    }

    method MarkFailed(id: nat, code: int, msg: string, transient: bool, now: int)
      modifies this
      ensures rows == if id in old(rows) then old(rows)[id := FailedRow(old(rows)[id], code, msg, transient, now)] else old(rows)
      ensures rows.Keys == old(rows.Keys) && forall k :: k in rows && k != id ==> rows[k] == old(rows)[k]
      ensures id in rows ==>
                && rows[id].attempts == old(rows)[id].attempts + 1 && rows[id].draft == old(rows)[id].draft
                && rows[id].lastCode == code && rows[id].lastError == msg && rows[id].updatedAt == now
                && rows[id].status == (if transient then Pending else Failed)
                && rows[id].nextAttemptAt == (if transient then now + RetryDelay(old(rows)[id].attempts)
                                              else old(rows)[id].nextAttemptAt)
    {
      if id in rows {
        rows := rows[id := FailedRow(rows[id], code, msg, transient, now)];
      }
    }

    method RecordSentCopy(id: nat, message: nat, now: int)
      modifies this
      ensures rows == if id in old(rows) then old(rows)[id := CopiedRow(old(rows)[id], message, now)] else old(rows)
      ensures rows.Keys == old(rows.Keys) && forall k :: k in rows && k != id ==> rows[k] == old(rows)[k]
      ensures id in rows ==>
                && rows[id].sentCopyMessage == Some(message) && rows[id].updatedAt == now
                && rows[id].draft == old(rows)[id].draft.(sentCopyRef := "")
                && rows[id].status == old(rows)[id].status && rows[id].attempts == old(rows)[id].attempts
                && rows[id].nextAttemptAt == old(rows)[id].nextAttemptAt
    {
      if id in rows {
        rows := rows[id := CopiedRow(rows[id], message, now)];
      }
    }

    method RecoverStuck(olderThan: int, now: int)
      modifies this
      ensures rows == Recovered(old(rows), now - EffectiveOlderThan(olderThan), now)
      ensures forall id :: id in rows && rows[id] != old(rows)[id] ==>
                old(rows)[id].status.Sending? && rows[id].status.Pending? && now - old(rows)[id].updatedAt > EffectiveOlderThan(olderThan)
      ensures var age := if olderThan > 0 then olderThan else 900_000_000;
              && rows.Keys == old(rows.Keys)
              && forall id :: id in rows ==>
                   if old(rows)[id].status.Sending? && now - old(rows)[id].updatedAt > age
                   then rows[id] == old(rows)[id].(status := Pending, updatedAt := now)
                   else rows[id] == old(rows)[id]
    {
      rows := Recovered(rows, now - EffectiveOlderThan(olderThan), now);
    }

    method Retry(id: nat, now: int) returns (ok: bool)
      modifies this
      ensures ok == (id in old(rows) && old(rows)[id].status.Failed?)
      ensures rows == if ok then old(rows)[id := RetriedRow(old(rows)[id], now)] else old(rows)
      ensures ok ==>
                && rows[id].status.Pending? && rows[id].attempts == 0 && rows[id].nextAttemptAt == now
                && rows[id].lastError == "" && rows[id].draft == old(rows)[id].draft && rows[id].updatedAt == now
      ensures rows.Keys == old(rows.Keys) && forall k :: k in rows && k != id ==> rows[k] == old(rows)[k]
    {
      ok := id in rows && rows[id].status.Failed?;
      if ok {
        rows := rows[id := RetriedRow(rows[id], now)];
      }
    }

    /** Only statuses that occur form a group; the others keep their zero. */
    method Stats() returns (counts: map<Status, nat>)
      ensures counts.Keys == {Pending, Sending, Sent, Failed}
      ensures forall st :: st in counts ==> counts[st] == |WithStatus(rows, st)|
      ensures counts[Pending] + counts[Sending] + counts[Sent] + counts[Failed] == |rows|
    {
      counts := CopyGroups(Groups(rows));
      forall st: Status ensures CountIn(Groups(rows), st) == |WithStatus(rows, st)| {
        GroupCount(rows, st);
      }
      StatusesPartition(rows);
    }
  }

  function Occurring(t: Table): set<Status> {
    set id | id in t :: t[id].status
  }

  /** The answer of the GROUP BY query: a count for each status that occurs. */
  function Groups(t: Table): map<Status, nat> {
    map st | st in Occurring(t) :: |WithStatus(t, st)|
  }

  function CountIn(groups: map<Status, nat>, st: Status): nat {
    if st in groups then groups[st] else 0
  }

  lemma GroupCount(t: Table, st: Status)
    ensures CountIn(Groups(t), st) == |WithStatus(t, st)|
  {
    if st !in Groups(t) {
      assert WithStatus(t, st) == {};
    }
  }

  method CopyGroups(groups: map<Status, nat>) returns (counts: map<Status, nat>)
    ensures counts.Keys == {Pending, Sending, Sent, Failed}
    ensures forall st :: st in counts ==> counts[st] == CountIn(groups, st)
  {
    counts := map[Pending := 0, Sending := 0, Sent := 0, Failed := 0];
    forall st: Status ensures st in counts {
      EveryStatus(st);
    }
    var todo := groups.Keys;
    while todo != {}
      invariant todo <= groups.Keys && forall st: Status :: st in counts
      invariant forall st: Status :: counts[st] == if st in todo then 0 else CountIn(groups, st)
      decreases |todo|
    {
      var st :| st in todo;
      counts := counts[st := groups[st]];
      todo := todo - {st};
    }
    forall st: Status ensures st in counts.Keys && st in {Pending, Sending, Sent, Failed} {
      EveryStatus(st);
    }
  }

  lemma EveryStatus(st: Status)
    ensures st in {Pending, Sending, Sent, Failed}
  {
  }

  lemma UnionSize(a: set<nat>, b: set<nat>)
    requires a !! b
    ensures |a + b| == |a| + |b|
  {
  }

  lemma StatusesDiffer(t: Table, a: Status, b: Status)
    requires a != b
    ensures WithStatus(t, a) !! WithStatus(t, b)
  {
  }

  lemma StatusesCover(t: Table)
    ensures t.Keys == WithStatus(t, Pending) + WithStatus(t, Sending) + WithStatus(t, Sent) + WithStatus(t, Failed)
  {
    forall id | id in t
      ensures id in WithStatus(t, Pending) + WithStatus(t, Sending) + WithStatus(t, Sent) + WithStatus(t, Failed)
    {
      EveryStatus(t[id].status);
    }
  }

  lemma FourSizes(a: set<nat>, b: set<nat>, c: set<nat>, d: set<nat>)
    requires a !! b && a !! c && a !! d && b !! c && b !! d && c !! d
    ensures |a + b + c + d| == |a| + |b| + |c| + |d|
  {
    UnionSize(a, b);
    UnionSize(a + b, c);
    UnionSize(a + b + c, d);
  }

  lemma StatusesPartition(t: Table)
    ensures |WithStatus(t, Pending)| + |WithStatus(t, Sending)| + |WithStatus(t, Sent)| + |WithStatus(t, Failed)| == |t|
  {
    StatusesCover(t);
    StatusesDiffer(t, Pending, Sending);
    StatusesDiffer(t, Pending, Sent);
    StatusesDiffer(t, Pending, Failed);
    StatusesDiffer(t, Sending, Sent);
    StatusesDiffer(t, Sending, Failed);
    StatusesDiffer(t, Sent, Failed);
    FourSizes(WithStatus(t, Pending), WithStatus(t, Sending), WithStatus(t, Sent), WithStatus(t, Failed));
  }

  // ----- Two backoff schedules -----

  /** The Go helper: doubles a base delay at most eight times, then caps it at one hour. */
  method Backoff(attempts: int) returns (delay: int)
    ensures delay == Min(3600, 60 * Pow2(if attempts <= 0 then 0 else Min(attempts, 8))) * SECOND
  {
    var base := 60;
    var i := 0;
    while i < attempts && i < 8
      invariant 0 <= i <= 8 && (0 <= attempts ==> i <= attempts) && (attempts < 0 ==> i == 0)
      invariant base == 60 * Pow2(i)
    {
      base := base * 2;
      i := i + 1;
    }
    if base > 3600 {
      base := 3600;
    }
    delay := base * SECOND;
  }

  /** The capped helper never waits longer than the SQL schedule, and agrees with it exactly up to five attempts. */
  lemma BackoffAgainstSql(n: nat)
    ensures Min(3600, 60 * Pow2(Min(n, 8))) * SECOND <= RetryDelay(n)
    ensures Min(3600, 60 * Pow2(Min(n, 8))) * SECOND == RetryDelay(n) <==> n <= 5
  {
    if n <= 5 {
      Pow2Monotone(n, 5);
      assert Pow2(5) == 32 by { assert Pow2(3) == 8; }
    } else {
      Pow2Monotone(6, Min(n, 8));
      assert Pow2(6) == 64 by { assert Pow2(3) == 8; assert Pow2(5) == 32; }
    }
  }
}
