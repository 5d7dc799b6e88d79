/** Every interleaving of the outbox statements under concurrent workers.

    The two marking statements carry no status guard, so a worker that acts too
    late can overwrite a row it no longer owns. The runs below are those in which
    no worker acts on a row more than `window` after leasing it, and every recovery
    waits at least `age`. SafeIffRecoveryWaits shows that they are safe exactly when
    `age >= window`; the other results are about such runs, with `age == window`. */
module OutboxRuns {
  import opened Common
  import opened Outbox

  datatype Lease = Lease(worker: nat, id: nat, at: int)

  /** The table plus what an observer has seen: outstanding leases, the number of
      inserts and of sent marks, and each row's transient failure times since its
      insert or last retry. */
  datatype State = State(rows: Table, now: int, leases: set<Lease>, inserts: nat, sends: nat,
                         failures: map<nat, seq<int>>)

  datatype Step =
    | Tick(dt: nat)
    | Insert(id: nat, draft: Draft)
    | LeaseRows(worker: nat, limit: int, locked: set<nat>, ids: seq<nat>)
    | MarkSent(lease: Lease, code: int)
    | MarkFailed(lease: Lease, code: int, msg: string, transient: bool)
    | RecordSentCopy(id: nat, message: nat)
    | Recover(olderThan: int)
    | Retry(id: nat)

  function Init(now: int): State {
    State(map[], now, {}, 0, 0, map[])
  }

  /** A lease its worker may still act on. */
  predicate Live(s: State, l: Lease, window: int) {
    l in s.leases && s.now <= l.at + window
  }

  ghost predicate EnabledFrom(s: State, step: Step, window: int, age: int) {
    match step
    case Insert(id, _) => id !in s.rows
    case LeaseRows(_, limit, locked, ids) => IsLeaseChoice(s.rows, s.now, EffectiveLimit(limit), locked, ids)
    case MarkSent(l, _) => Live(s, l, window)
    case MarkFailed(l, _, _, _) => Live(s, l, window)
    case Recover(olderThan) => EffectiveOlderThan(olderThan) >= age
    case _ => true
  }

  /** Recovery waits as long as workers may act. */
  ghost predicate Enabled(s: State, step: Step, window: int) {
    EnabledFrom(s, step, window, window)
  }

  function FailuresOf(s: State, id: nat): seq<int> {
    if id in s.failures then s.failures[id] else []
  }

  function Apply(s: State, step: Step): State {
    match step
    case Tick(dt) => s.(now := s.now + dt)
    case Insert(id, d) =>
      s.(rows := s.rows[id := NewRow(d, s.now)], inserts := s.inserts + 1, failures := s.failures[id := []])
    case LeaseRows(w, _, _, ids) =>
      s.(rows := MarkLeased(s.rows, ids, s.now), leases := s.leases + set id | id in ids :: Lease(w, id, s.now))
    case MarkSent(l, code) =>
      s.(rows := if l.id in s.rows then s.rows[l.id := SentRow(s.rows[l.id], code, s.now)] else s.rows,
         leases := s.leases - {l}, sends := s.sends + 1)
    case MarkFailed(l, code, msg, transient) =>
      s.(rows := if l.id in s.rows then s.rows[l.id := FailedRow(s.rows[l.id], code, msg, transient, s.now)] else s.rows,
         leases := s.leases - {l},
         failures := if transient then s.failures[l.id := FailuresOf(s, l.id) + [s.now]] else s.failures)
    case RecordSentCopy(id, m) =>
      s.(rows := if id in s.rows then s.rows[id := CopiedRow(s.rows[id], m, s.now)] else s.rows)
    case Recover(olderThan) =>
      s.(rows := Recovered(s.rows, s.now - EffectiveOlderThan(olderThan), s.now))
    case Retry(id) =>
      if id in s.rows && s.rows[id].status.Failed? then
        s.(rows := s.rows[id := RetriedRow(s.rows[id], s.now)], failures := s.failures[id := []])
      else s
  }

  // ----- The invariant -----

  /** A live lease's row is sending, has not been touched since before the lease, and was due when leased. */
  ghost predicate Holding(s: State, window: int) {
    forall l :: Live(s, l, window) ==>
      && l.id in s.rows && s.rows[l.id].status.Sending?
      && s.rows[l.id].nextAttemptAt <= l.at <= s.rows[l.id].updatedAt
      && l.at <= s.now
  }

  ghost predicate Exclusive(s: State, window: int) {
    forall l, m :: Live(s, l, window) && Live(s, m, window) && l.id == m.id ==> l == m
  }

  ghost predicate Counted(s: State) {
    |s.rows.Keys| == s.inserts && |WithStatus(s.rows, Sent)| == s.sends
  }

  /** Successive failures are at least the backoff delay apart. */
  ghost predicate Spaced(h: seq<int>) {
    forall i :: 0 <= i < |h| - 1 ==> h[i] + RetryDelay(i) <= h[i + 1]
  }

  ghost predicate Paced(s: State) {
    && s.failures.Keys == s.rows.Keys
    && forall id :: id in s.rows ==> PacedRow(s.rows[id], s.failures[id])
  }

  ghost predicate Inv(s: State, window: int) {
    Holding(s, window) && Exclusive(s, window) && Counted(s) && Paced(s)
  }

  lemma HoldingKept(s: State, step: Step, window: int)
    requires Holding(s, window) && Exclusive(s, window) && Enabled(s, step, window)
    ensures Holding(Apply(s, step), window) && Exclusive(Apply(s, step), window)
  {
    var s' := Apply(s, step);
    forall l | Live(s', l, window) && !step.LeaseRows?
      ensures Live(s, l, window)
    {
    }
    if step.LeaseRows? {
      forall l | Live(s', l, window)
        ensures if l in s.leases then Live(s, l, window) && l.id !in step.ids
                else l == Lease(step.worker, l.id, s.now) && l.id in step.ids
      {
      }
    }
  }

  /** What one step does to the status of one row already in the table. */
  function StatusStep(s: State, step: Step, id: nat): Status
    requires id in s.rows
  {
    var st := s.rows[id].status;
    match step
    case LeaseRows(_, _, _, ids) => if id in ids && st.Pending? then Sending else st
    case MarkSent(l, _) => if l.id == id then Sent else st
    case MarkFailed(l, _, _, transient) => if l.id != id then st else if transient then Pending else Failed
    case Recover(olderThan) => if Stuck(s.rows[id], s.now - EffectiveOlderThan(olderThan)) then Pending else st
    case Retry(r) => if r == id && st.Failed? then Pending else st
    case _ => st
  }

  lemma StatusAfter(s: State, step: Step, window: int)
    requires Enabled(s, step, window)
    ensures Apply(s, step).rows.Keys == s.rows.Keys + if step.Insert? then {step.id} else {}
    ensures forall id :: id in s.rows ==> Apply(s, step).rows[id].status == StatusStep(s, step, id)
    ensures step.Insert? ==> Apply(s, step).rows[step.id].status.Pending?
  {
    match step
    case Tick(_) =>
    case Insert(_, _) =>
    case LeaseRows(_, _, _, _) =>
    case MarkSent(_, _) =>
    case MarkFailed(_, _, _, _) =>
    case RecordSentCopy(_, _) =>
    case Recover(_) =>
    case Retry(_) =>
  }

  lemma Counters(s: State, step: Step)
    ensures Apply(s, step).inserts == s.inserts + if step.Insert? then 1 else 0
    ensures Apply(s, step).sends == s.sends + if step.MarkSent? then 1 else 0
  {
  }

  /** Only a sent mark adds to the sent rows, and nothing takes from them. */
  lemma SentIds(s: State, step: Step, window: int, t: Table)
    requires Holding(s, window) && Enabled(s, step, window)
    requires t.Keys == s.rows.Keys + if step.Insert? then {step.id} else {}
    requires forall id :: id in s.rows ==> t[id].status == StatusStep(s, step, id)
    requires step.Insert? ==> t[step.id].status.Pending?
    ensures WithStatus(t, Sent) == WithStatus(s.rows, Sent) + if step.MarkSent? then {step.lease.id} else {}
    ensures step.MarkSent? ==> step.lease.id !in WithStatus(s.rows, Sent)
  {
    if step.MarkSent? || step.MarkFailed? {
      assert Live(s, step.lease, window);
      assert s.rows[step.lease.id].status.Sending?;
    }
  }

  lemma CountedKept(s: State, step: Step, window: int)
    requires Holding(s, window) && Counted(s) && Enabled(s, step, window)
    ensures Counted(Apply(s, step))
  {
    StatusAfter(s, step, window);
    Counters(s, step);
    var t := Apply(s, step).rows;
    SentIds(s, step, window, t);
    assert |t.Keys| == |s.rows.Keys| + if step.Insert? then 1 else 0;
    assert |WithStatus(t, Sent)| == |WithStatus(s.rows, Sent)| + if step.MarkSent? then 1 else 0;
  }

  /** The pacing facts of one row with failure history h. */
  ghost predicate PacedRow(r: Row, h: seq<int>) {
    && Spaced(h)
    && (!r.status.Failed? ==> r.attempts == |h|)
    && (!r.status.Failed? && h != [] ==> r.nextAttemptAt == h[|h| - 1] + RetryDelay(|h| - 1))
  }

  lemma PacedRowFails(r: Row, h: seq<int>, code: int, msg: string, transient: bool, now: int)
    requires PacedRow(r, h) && r.status.Sending? && r.nextAttemptAt <= now
    ensures PacedRow(FailedRow(r, code, msg, transient, now), if transient then h + [now] else h)
  {
  }

  lemma PacedRowKept(s: State, step: Step, window: int, id: nat)
    requires Holding(s, window) && Paced(s) && Enabled(s, step, window) && id in s.rows
    ensures id in Apply(s, step).rows && id in Apply(s, step).failures
    ensures PacedRow(Apply(s, step).rows[id], Apply(s, step).failures[id])
  {
    assert PacedRow(s.rows[id], s.failures[id]);
    match step
    case Tick(_) =>
    case Insert(_, _) =>
    case LeaseRows(_, _, _, _) =>
    case MarkSent(l, _) => assert Live(s, l, window);
    case MarkFailed(l, code, msg, transient) =>
      assert Live(s, l, window);
      if l.id == id {
        PacedRowFails(s.rows[id], s.failures[id], code, msg, transient, s.now);
      }
    case RecordSentCopy(_, _) =>
    case Recover(_) =>
    case Retry(_) =>
  }

  lemma HistoryKeys(s: State, step: Step, window: int)
    requires Holding(s, window) && Paced(s) && Enabled(s, step, window)
    ensures Apply(s, step).failures.Keys == Apply(s, step).rows.Keys
  {
    match step
    case Insert(_, _) =>
    case LeaseRows(_, _, _, _) =>
    case MarkFailed(l, _, _, _) => assert Live(s, l, window);
    case Recover(_) =>
    case _ =>
  }

  lemma PacedKept(s: State, step: Step, window: int)
    requires Holding(s, window) && Paced(s) && Enabled(s, step, window)
    ensures Paced(Apply(s, step))
  {
    var s' := Apply(s, step);
    HistoryKeys(s, step, window);
    forall id | id in s'.rows
      ensures PacedRow(s'.rows[id], s'.failures[id])
    {
      if id in s.rows {
        PacedRowKept(s, step, window, id);
      } else {
        StatusAfter(s, step, window);
        assert s'.rows[id] == NewRow(step.draft, s.now) && s'.failures[id] == [];
      }
    }
  }

  // ----- Runs -----

  ghost predicate ValidRun(s: State, steps: seq<Step>, window: int)
    decreases |steps|
  {
    steps == [] || (Enabled(s, steps[0], window) && ValidRun(Apply(s, steps[0]), steps[1..], window))
  }

  function Run(s: State, steps: seq<Step>): State
    decreases |steps|
  {
    if steps == [] then s else Run(Apply(s, steps[0]), steps[1..])
  }

  lemma {:induction false} RunSplit(s: State, steps: seq<Step>, k: nat, window: int)
    requires k <= |steps| && ValidRun(s, steps, window)
    ensures ValidRun(s, steps[..k], window) && ValidRun(Run(s, steps[..k]), steps[k..], window)
    ensures Run(s, steps) == Run(Run(s, steps[..k]), steps[k..])
    decreases |steps|
  {
    if k == 0 {
      assert steps[..k] == [] && steps[k..] == steps;
    } else {
      RunSplit(Apply(s, steps[0]), steps[1..], k - 1, window);
      assert steps[..k][1..] == steps[1..][..k - 1] && steps[k..] == steps[1..][k - 1..];
    }
  }

  lemma StepKeepsInv(s: State, step: Step, window: int)
    requires Inv(s, window) && Enabled(s, step, window)
    ensures Inv(Apply(s, step), window)
  {
    HoldingKept(s, step, window);
    CountedKept(s, step, window);
    PacedKept(s, step, window);
  }

  lemma {:induction false} InvAlways(s: State, steps: seq<Step>, window: int)
    requires Inv(s, window) && ValidRun(s, steps, window)
    ensures Inv(Run(s, steps), window)
    decreases |steps|
  {
    if steps != [] {
      StepKeepsInv(s, steps[0], window);
      InvAlways(Apply(s, steps[0]), steps[1..], window);
    }
  }

  /** Main safety result: in every state of every run, a held row is sending, it has one holder,
      and the four status counts add up to the number of inserts. */
  lemma HoldersAreExclusive(t0: int, steps: seq<Step>, window: int, k: nat)
    requires k <= |steps| && ValidRun(Init(t0), steps, window)
    ensures var s := Run(Init(t0), steps[..k]);
            && (forall l :: Live(s, l, window) ==> l.id in s.rows && s.rows[l.id].status.Sending?)
            && (forall l, m :: Live(s, l, window) && Live(s, m, window) && l.id == m.id ==> l == m)
            && |WithStatus(s.rows, Pending)| + |WithStatus(s.rows, Sending)|
               + |WithStatus(s.rows, Sent)| + |WithStatus(s.rows, Failed)| == s.inserts
  {
    RunSplit(Init(t0), steps, k, window);
    InvAlways(Init(t0), steps[..k], window);
    StatusesPartition(Run(Init(t0), steps[..k]).rows);
  }

  lemma TerminalStep(s: State, step: Step, window: int, id: nat)
    requires Holding(s, window) && Enabled(s, step, window) && id in s.rows
    ensures id in Apply(s, step).rows
    ensures s.rows[id].status.Sent? ==> Apply(s, step).rows[id].status.Sent?
    ensures s.rows[id].status.Failed? && step != Retry(id) ==> Apply(s, step).rows[id].status.Failed?
  {
    StatusAfter(s, step, window);
    assert step.MarkSent? || step.MarkFailed? ==> Live(s, step.lease, window);
  }

  /** `sent` is absorbing; `failed` is left only through an admin retry of that row. */
  lemma {:induction false} TerminalStatuses(s: State, steps: seq<Step>, window: int, id: nat)
    requires Inv(s, window) && ValidRun(s, steps, window) && id in s.rows
    ensures id in Run(s, steps).rows
    ensures s.rows[id].status.Sent? ==> Run(s, steps).rows[id].status.Sent?
    ensures s.rows[id].status.Failed? && Retry(id) !in steps ==> Run(s, steps).rows[id].status.Failed?
    decreases |steps|
  {
    if steps != [] {
      StepKeepsInv(s, steps[0], window);
      TerminalStep(s, steps[0], window, id);
      TerminalStatuses(Apply(s, steps[0]), steps[1..], window, id);
    }
  }

  /** No row is marked sent twice, and no row is leased or failed again after it was marked sent. */
  lemma SentOnce(t0: int, steps: seq<Step>, window: int, i: nat, j: nat)
    requires i < j < |steps| && ValidRun(Init(t0), steps, window) && steps[i].MarkSent?
    ensures steps[j].MarkSent? || steps[j].MarkFailed? ==> steps[j].lease.id != steps[i].lease.id
    ensures steps[j].LeaseRows? ==> steps[i].lease.id !in steps[j].ids
  {
    var id, rest := steps[i].lease.id, steps[i + 1..];
    var before := StateAt(t0, steps, window, i);
    var after := Apply(before, steps[i]);
    StepKeepsInv(before, steps[i], window);
    assert id in after.rows && after.rows[id].status.Sent?;
    var n := j - i - 1;
    RunSplit(after, rest, n, window);
    TerminalStatuses(after, rest[..n], window, id);
    InvAlways(after, rest[..n], window);
    var s := Run(after, rest[..n]);
    assert rest[n..][0] == steps[j];
    assert Enabled(s, steps[j], window) && s.rows[id].status.Sent?;
    SentIsLeftAlone(s, steps[j], window, id);
  }

  lemma SentIsLeftAlone(s: State, step: Step, window: int, id: nat)
    requires Holding(s, window) && Enabled(s, step, window) && id in s.rows && s.rows[id].status.Sent?
    ensures step.MarkSent? || step.MarkFailed? ==> step.lease.id != id
    ensures step.LeaseRows? ==> id !in step.ids
  {
  }

  /** The state in which step i of a run is taken; the rest of the run goes on from there. */
  lemma StateAt(t0: int, steps: seq<Step>, window: int, i: nat) returns (s: State)
    requires i < |steps| && ValidRun(Init(t0), steps, window)
    ensures s == Run(Init(t0), steps[..i]) && Inv(s, window) && Enabled(s, steps[i], window)
    ensures ValidRun(Apply(s, steps[i]), steps[i + 1..], window)
  {
    s := Run(Init(t0), steps[..i]);
    RunSplit(Init(t0), steps, i, window);
    InvAlways(Init(t0), steps[..i], window);
    assert steps[i..][0] == steps[i] && steps[i..][1..] == steps[i + 1..];
  }

  /** The number of sent rows is the number of sent marks: nothing is lost or counted twice. */
  lemma SentConserved(t0: int, steps: seq<Step>, window: int)
    requires ValidRun(Init(t0), steps, window)
    ensures |WithStatus(Run(Init(t0), steps).rows, Sent)| == Marks(steps)
  {
    InvAlways(Init(t0), steps, window);
    SendsCountMarks(Init(t0), steps);
  }

  function Marks(steps: seq<Step>): nat {
    if steps == [] then 0 else (if steps[0].MarkSent? then 1 else 0) + Marks(steps[1..])
  }

  lemma {:induction false} SendsCountMarks(s: State, steps: seq<Step>)
    ensures Run(s, steps).sends == s.sends + Marks(steps)
    decreases |steps|
  {
    if steps != [] {
      SendsCountMarks(Apply(s, steps[0]), steps[1..]);
    }
  }

  // ----- Backoff over whole runs -----

  function TotalDelay(k: nat): int {
    if k == 0 then 0 else TotalDelay(k - 1) + RetryDelay(k - 1)
  }

  lemma {:induction false} SpacedSpan(h: seq<int>, k: nat)
    requires Spaced(h) && k < |h|
    ensures h[0] + TotalDelay(k) <= h[k]
  {
    if k > 0 {
      SpacedSpan(h, k - 1);
    }
  }

  /** In closed form: 60, 120, 240, ... seconds, doubling eight times and constant from then on. */
  lemma {:induction false} TotalDelayClosed(k: nat)
    ensures TotalDelay(k) == if k <= 9 then 60 * (Pow2(k) - 1) * SECOND else (60 * 511 + (k - 9) * 15360) * SECOND
  {
    if k > 0 {
      TotalDelayClosed(k - 1);
      assert Pow2(8) == 256 && Pow2(9) == 512 by { assert Pow2(4) == 16; }
    }
  }

  /** A row leased after k transient failures (since its insert or last retry) has waited the k-th
      delay since the last failure, and all k delays since the first. */
  lemma LeaseWaitsForBackoff(t0: int, steps: seq<Step>, window: int, k: nat, id: nat)
    requires k < |steps| && ValidRun(Init(t0), steps, window)
    requires steps[k].LeaseRows? && id in steps[k].ids
    ensures var s := Run(Init(t0), steps[..k]);
            var h := FailuresOf(s, id);
            && id in s.rows && s.rows[id].attempts == |h|
            && (h != [] ==> s.now >= h[|h| - 1] + 60 * Pow2(Min(|h| - 1, 8)) * SECOND
                            && s.now >= h[0] + TotalDelay(|h|))
  {
    var s := StateAt(t0, steps, window, k);
    var h := FailuresOf(s, id);
    assert Ready(s.rows, s.now, steps[k].locked, id);
    if h != [] {
      SpacedSpan(h, |h| - 1);
    }
  }

  // ----- Exactly which recovery ages are safe -----

  ghost predicate ValidFrom(s: State, steps: seq<Step>, window: int, age: int)
    decreases |steps|
  {
    steps == [] || (EnabledFrom(s, steps[0], window, age) && ValidFrom(Apply(s, steps[0]), steps[1..], window, age))
  }

  lemma {:induction false} LongerAgeIsValid(s: State, steps: seq<Step>, window: int, age: int)
    requires age >= window && ValidFrom(s, steps, window, age)
    ensures ValidRun(s, steps, window)
    decreases |steps|
  {
    if steps != [] {
      LongerAgeIsValid(Apply(s, steps[0]), steps[1..], window, age);
    }
  }

  lemma {:induction false} Extend(s: State, steps: seq<Step>, e: Step, window: int, age: int)
    requires ValidFrom(s, steps, window, age) && EnabledFrom(Run(s, steps), e, window, age)
    ensures ValidFrom(s, steps + [e], window, age) && Run(s, steps + [e]) == Apply(Run(s, steps), e)
    decreases |steps|
  {
    if steps == [] {
      assert steps + [e] == [e] && [e][1..] == [];
    } else {
      Extend(Apply(s, steps[0]), steps[1..], e, window, age);
      assert (steps + [e])[1..] == steps[1..] + [e];
    }
  }

  /** No run ever has two live holders of a row. */
  ghost predicate AlwaysExclusive(window: int, age: int) {
    forall t0: int, steps: seq<Step> :: ValidFrom(Init(t0), steps, window, age) ==> Exclusive(Run(Init(t0), steps), window)
  }

  /** No step of any run changes the status of a sent row. */
  ghost predicate SentIsFinal(window: int, age: int) {
    forall t0: int, steps: seq<Step>, e: Step, id: nat ::
      ValidFrom(Init(t0), steps, window, age) && EnabledFrom(Run(Init(t0), steps), e, window, age)
      && id in Run(Init(t0), steps).rows && Run(Init(t0), steps).rows[id].status.Sent? ==>
        StatusStep(Run(Init(t0), steps), e, id).Sent?
  }

  /** A worker leases a row at time 0 and stalls; once the row is old enough it is recovered and leased
      by a second worker, while the first may still act. */
  function EarlyRecovery(id: nat, d: Draft, age: nat): seq<Step> {
    [Insert(id, d)] + [LeaseRows(1, 0, {}, [id])] + [Tick(age + 1)] + [Recover(age)] + [LeaseRows(2, 0, {}, [id])]
  }

  /** What one lease of a table's only row does. */
  lemma SoleLease(s: State, worker: nat, id: nat, window: int, age: int)
    requires s.rows.Keys == {id} && s.rows[id].status.Pending? && s.rows[id].nextAttemptAt <= s.now
    ensures var lease := LeaseRows(worker, 0, {}, [id]);
            && EnabledFrom(s, lease, window, age)
            && Apply(s, lease).rows == map[id := s.rows[id].(status := Sending, updatedAt := s.now)]
            && Apply(s, lease).leases == s.leases + {Lease(worker, id, s.now)} && Apply(s, lease).now == s.now
  {
    assert [id][0] == id;
  }

  lemma SoleRecovery(s: State, id: nat, age: int)
    requires s.rows.Keys == {id} && s.rows[id].status.Sending? && age > 0 && s.rows[id].updatedAt < s.now - age
    ensures var t := Apply(s, Recover(age));
            t == s.(rows := map[id := s.rows[id].(status := Pending, updatedAt := s.now)])
  {
  }

  lemma FirstLease(id: nat, d: Draft, window: int, age: int) returns (s: State)
    ensures ValidFrom(Init(0), [Insert(id, d)] + [LeaseRows(1, 0, {}, [id])], window, age)
    ensures s == Run(Init(0), [Insert(id, d)] + [LeaseRows(1, 0, {}, [id])]) && s.now == 0
    ensures s.rows == map[id := NewRow(d, 0).(status := Sending)] && s.leases == {Lease(1, id, 0)}
  {
    var first := Insert(id, d);
    Extend(Init(0), [], first, window, age);
    assert [] + [first] == [first];
    SoleLease(Apply(Init(0), first), 1, id, window, age);
    Extend(Init(0), [first], LeaseRows(1, 0, {}, [id]), window, age);
    s := Run(Init(0), [first] + [LeaseRows(1, 0, {}, [id])]);
  }

  lemma EarlyStates(id: nat, d: Draft, window: int, age: int) returns (s: State)
    requires 0 < age < window
    ensures ValidFrom(Init(0), EarlyRecovery(id, d, age), window, age)
    ensures s == Run(Init(0), EarlyRecovery(id, d, age)) && s.now == age + 1
    ensures s.leases == {Lease(1, id, 0), Lease(2, id, age + 1)}
    ensures s.rows.Keys == {id} && s.rows[id].status.Sending?
  {
    var two := [Insert(id, d)] + [LeaseRows(1, 0, {}, [id])];
    var s2 := FirstLease(id, d, window, age);
    Extend(Init(0), two, Tick(age + 1), window, age);
    var s3 := Apply(s2, Tick(age + 1));
    SoleRecovery(s3, id, age);
    Extend(Init(0), two + [Tick(age + 1)], Recover(age), window, age);
    var s4 := Apply(s3, Recover(age));
    SoleLease(s4, 2, id, window, age);
    Extend(Init(0), two + [Tick(age + 1)] + [Recover(age)], LeaseRows(2, 0, {}, [id]), window, age);
    s := Apply(s4, LeaseRows(2, 0, {}, [id]));
  }

  /** If recovery may come before the window ends, two workers can hold the same row. */
  lemma EarlyRecoverySharesRow(id: nat, d: Draft, window: int, age: int)
    requires 0 < age < window
    ensures ValidFrom(Init(0), EarlyRecovery(id, d, age), window, age)
    ensures !Exclusive(Run(Init(0), EarlyRecovery(id, d, age)), window)
  {
    var s := EarlyStates(id, d, window, age);
    assert Live(s, Lease(1, id, 0), window) && Live(s, Lease(2, id, age + 1), window);
  }

  /** Then the second worker sends the message and the first reports a transient failure: the sent row
      becomes pending again, and the message goes out twice. */
  lemma LateWorkerUnsends(id: nat, d: Draft, window: int, age: int)
    requires 0 < age < window
    ensures var steps := EarlyRecovery(id, d, age) + [MarkSent(Lease(2, id, age + 1), 250)];
            var late := MarkFailed(Lease(1, id, 0), 0, "late", true);
            && ValidFrom(Init(0), steps + [late], window, age)
            && ValidFrom(Init(0), steps, window, age) && EnabledFrom(Run(Init(0), steps), late, window, age)
            && id in Run(Init(0), steps).rows && Run(Init(0), steps).rows[id].status.Sent?
            && id in Run(Init(0), steps + [late]).rows && Run(Init(0), steps + [late]).rows[id].status.Pending?
            && StatusStep(Run(Init(0), steps), late, id).Pending?
  {
    var s := EarlyStates(id, d, window, age);
    var sent, late := MarkSent(Lease(2, id, age + 1), 250), MarkFailed(Lease(1, id, 0), 0, "late", true);
    assert Live(s, Lease(2, id, age + 1), window);
    Extend(Init(0), EarlyRecovery(id, d, age), sent, window, age);
    assert Live(Apply(s, sent), Lease(1, id, 0), window);
    Extend(Init(0), EarlyRecovery(id, d, age) + [sent], late, window, age);
  }

  lemma WaitingIsSafe(window: int, age: int)
    requires age >= window
    ensures AlwaysExclusive(window, age) && SentIsFinal(window, age)
  {
    forall t0: int, steps: seq<Step> | ValidFrom(Init(t0), steps, window, age)
      ensures Inv(Run(Init(t0), steps), window)
    {
      LongerAgeIsValid(Init(t0), steps, window, age);
      InvAlways(Init(t0), steps, window);
    }
    forall t0: int, steps: seq<Step>, e: Step, id: nat |
      ValidFrom(Init(t0), steps, window, age) && EnabledFrom(Run(Init(t0), steps), e, window, age)
      && id in Run(Init(t0), steps).rows && Run(Init(t0), steps).rows[id].status.Sent?
      ensures StatusStep(Run(Init(t0), steps), e, id).Sent?
    {
      SentIsLeftAlone(Run(Init(t0), steps), e, window, id);
    }
  }

  /** Main condition: runs keep rows exclusively held, and sent rows sent, exactly when recovery waits at
      least as long as workers may act. A recovery age is positive: anything else means the default. */
  lemma SafeIffRecoveryWaits(window: int, age: int)
    requires age > 0
    ensures AlwaysExclusive(window, age) <==> age >= window
    ensures SentIsFinal(window, age) <==> age >= window
  {
    if age >= window {
      WaitingIsSafe(window, age);
    } else {
      var d := Draft(0, "", "", "", "", "");
      EarlyRecoverySharesRow(7, d, window, age);
      LateWorkerUnsends(7, d, window, age);
    }
  }

  // ----- The store takes the steps of the runs -----

  method StoreInserts(store: OutboxStore, id: nat, d: Draft, s: State)
    requires store.rows == s.rows && EnabledFrom(s, Insert(id, d), 0, 0)
    modifies store
    ensures store.rows == Apply(s, Insert(id, d)).rows
  {
    store.Insert(id, d, s.now);
  }

  method StoreLeases(store: OutboxStore, worker: nat, limit: int, locked: set<nat>, s: State) returns (ids: seq<nat>)
    requires store.rows == s.rows
    modifies store
    ensures var step := LeaseRows(worker, limit, locked, ids);
            EnabledFrom(s, step, 0, 0) && store.rows == Apply(s, step).rows
  {
    var rows;
    ids, rows := store.LeasePending(limit, locked, s.now);
  }

  method StoreMarks(store: OutboxStore, l: Lease, code: int, outcome: Option<(string, bool)>, s: State)
    requires store.rows == s.rows
    modifies store
    ensures store.rows == Apply(s, if outcome.None? then MarkSent(l, code)
                                   else MarkFailed(l, code, outcome.value.0, outcome.value.1)).rows
  {
    if outcome.None? {
      store.MarkSent(l.id, code, s.now);
    } else {
      store.MarkFailed(l.id, code, outcome.value.0, outcome.value.1, s.now);
    }
  }

  method StoreMaintains(store: OutboxStore, step: Step, s: State)
    requires store.rows == s.rows && (step.Recover? || step.Retry? || step.RecordSentCopy?)
    modifies store
    ensures store.rows == Apply(s, step).rows
  {
    match step
    case Recover(olderThan) => store.RecoverStuck(olderThan, s.now);
    case Retry(id) => var ok := store.Retry(id, s.now);
    case RecordSentCopy(id, message) => store.RecordSentCopy(id, message, s.now);
  }
}
