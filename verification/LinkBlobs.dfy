/** Protected links and their ciphertext blobs, which live in a second store.

    Creation puts the blob, inserts the row and reads it back; an error from the
    last two triggers a best-effort blob delete. The sweeper deletes rows first and
    their blobs afterwards. Any of these may interleave and any blob delete may fail. */
module LinkBlobs {
  import opened Common
  import opened Links
  import Db = LinkRuns

  /** Where one creating request stands. */
  datatype Phase =
    | Stored(key: string)
    | Cleaning(key: string, inserted: Option<string>)
    | Finished

  /** `drawn` holds every blob key ever used; `doomed` the keys a sweep has still to delete;
      `stripped` the tokens whose request ended by deleting the blob under their inserted row. */
  datatype State = State(db: Db.State, blobs: set<string>, requests: map<nat, Phase>,
                         drawn: set<string>, doomed: set<string>, stripped: set<string>)

  datatype Event =
    | Put(request: nat, key: string)
    | CreateOk(request: nat, token: string, input: Input)
    | CreateFails(request: nat)
    | CreateInsertsThenFails(request: nat, token: string, input: Input)
    | Cleanup(request: nat, deleted: bool)
    | Sweep(victims: set<string>)
    | SweepDelete(key: string, deleted: bool)
    | Fetch(key: string)
    | Statement(e: Db.Event)

  function Init(now: int): State {
    State(Db.State(map[], now, {}), {}, map[], {}, {}, {})
  }

  predicate Enabled(s: State, e: Event) {
    match e
    case Put(q, key) => q !in s.requests && key !in s.drawn
    case CreateOk(q, token, input) =>
      q in s.requests && s.requests[q] == Stored(input.blobRef) && Db.Enabled(s.db, Db.Create(token, input))
    case CreateFails(q) => q in s.requests && s.requests[q].Stored?
    case CreateInsertsThenFails(q, token, input) =>
      q in s.requests && s.requests[q] == Stored(input.blobRef) && Db.Enabled(s.db, Db.Create(token, input))
    case Cleanup(q, _) => q in s.requests && s.requests[q].Cleaning?
    case Sweep(victims) => Db.Enabled(s.db, Db.Purge(victims))
    case SweepDelete(key, _) => key in s.doomed
    case Fetch(_) => true
    case Statement(d) => d.Tick? || d.Consume? || d.Lookup?
  }

  function Without(blobs: set<string>, key: string, deleted: bool): set<string> {
    if deleted then blobs - {key} else blobs
  }

  function Next(s: State, e: Event): State
    requires Enabled(s, e)
  {
    match e
    case Put(q, key) =>
      s.(blobs := s.blobs + {key}, drawn := s.drawn + {key}, requests := s.requests[q := Stored(key)])
    case CreateOk(q, token, input) =>
      s.(db := Db.Next(s.db, Db.Create(token, input)), requests := s.requests[q := Finished])
    case CreateFails(q) =>
      s.(requests := s.requests[q := Cleaning(s.requests[q].key, None)])
    case CreateInsertsThenFails(q, token, input) =>
      s.(db := Db.Next(s.db, Db.Create(token, input)),
         requests := s.requests[q := Cleaning(input.blobRef, Some(token))])
    case Cleanup(q, deleted) =>
      var p := s.requests[q];
      s.(blobs := Without(s.blobs, p.key, deleted), requests := s.requests[q := Finished],
         stripped := if deleted && p.inserted.Some? then s.stripped + {p.inserted.value} else s.stripped)
    case Sweep(victims) =>
      s.(db := Db.Next(s.db, Db.Purge(victims)),
         doomed := s.doomed + set k | k in victims :: s.db.table[k].input.blobRef)
    case SweepDelete(key, deleted) =>
      s.(blobs := Without(s.blobs, key, deleted), doomed := s.doomed - {key})
    case Fetch(_) => s
    case Statement(d) => s.(db := Db.Next(s.db, d))
  }

  // ----- The invariant -----

  function RefOf(s: State, k: string): string
    requires k in s.db.table
  {
    s.db.table[k].input.blobRef
  }

  ghost predicate Rows(s: State) {
    && s.db.table.Keys <= s.db.used && s.stripped <= s.db.used
    && (forall k :: k in s.db.table ==> RefOf(s, k) in s.drawn && RefOf(s, k) !in s.doomed)
    && (forall k, m :: k in s.db.table && m in s.db.table && RefOf(s, k) == RefOf(s, m) ==> k == m)
  }

  predicate Active(s: State, q: nat) {
    q in s.requests && !s.requests[q].Finished?
  }

  predicate Inserter(s: State, q: nat, k: string) {
    Active(s, q) && s.requests[q].Cleaning? && s.requests[q].inserted == Some(k)
  }

  ghost predicate Requests(s: State) {
    && (forall q :: Active(s, q) ==> s.requests[q].key in s.drawn)
    && (forall q, p :: Active(s, q) && Active(s, p) && s.requests[q].key == s.requests[p].key ==> q == p)
    && (forall q :: Active(s, q) && s.requests[q].Stored? ==>
          s.requests[q].key in s.blobs && s.requests[q].key !in s.doomed)
  }

  /** A row whose key the request still holds was inserted by that request. */
  ghost predicate OwnRow(s: State, q: nat)
    requires Active(s, q)
  {
    var p := s.requests[q];
    && (forall k :: k in s.db.table && RefOf(s, k) == p.key ==> p.Cleaning? && p.inserted == Some(k))
    && (p.Cleaning? && p.inserted.Some? ==>
          var k := p.inserted.value;
          k in s.db.used && k !in s.stripped && (k in s.db.table ==> RefOf(s, k) == p.key))
  }

  ghost predicate Insertions(s: State) {
    && (forall q :: Active(s, q) ==> OwnRow(s, q))
    && (forall q, p, k :: Inserter(s, q, k) && Inserter(s, p, k) ==> q == p)
  }

  ghost predicate Blobs(s: State) {
    && s.blobs <= s.drawn && s.doomed <= s.drawn
    && forall k :: k in s.db.table ==> (RefOf(s, k) in s.blobs <==> k !in s.stripped)
  }

  ghost predicate Inv(s: State) {
    Rows(s) && Requests(s) && Insertions(s) && Blobs(s)
  }

  lemma HeldKeys(s: State)
    requires Insertions(s)
    ensures forall q, k :: Active(s, q) && k in s.db.table && RefOf(s, k) == s.requests[q].key ==>
              s.requests[q].Cleaning? && s.requests[q].inserted == Some(k)
    ensures forall q :: Active(s, q) && s.requests[q].Cleaning? && s.requests[q].inserted.Some? ==>
              s.requests[q].inserted.value in s.db.used && s.requests[q].inserted.value !in s.stripped
  {
    forall q | Active(s, q) ensures OwnRow(s, q) {}
  }

  lemma RowsKept(s: State, e: Event)
    requires Inv(s) && Enabled(s, e)
    ensures Rows(Next(s, e))
  {
    HeldKeys(s);
    match e
    case CreateOk(q, _, _) => assert Active(s, q);
    case CreateInsertsThenFails(q, _, _) => assert Active(s, q);
    case Cleanup(q, _) => assert Active(s, q);
    case _ =>
  }

  lemma RequestsKept(s: State, e: Event)
    requires Inv(s) && Enabled(s, e)
    ensures Requests(Next(s, e))
  {
    HeldKeys(s);
    match e
    case Put(_, _) =>
    case CreateOk(_, _, _) =>
    case CreateFails(q) => assert Active(s, q);
    case CreateInsertsThenFails(q, _, _) => assert Active(s, q);
    case Cleanup(q, _) => assert Active(s, q);
    case Sweep(_) =>
    case SweepDelete(_, _) =>
    case Fetch(_) =>
    case Statement(_) =>
  }

  lemma OwnRowKept(s: State, e: Event, q: nat)
    requires Inv(s) && Enabled(s, e) && Active(Next(s, e), q)
    ensures OwnRow(Next(s, e), q)
  {
    assert Active(s, q) ==> OwnRow(s, q);
    match e
    case Put(_, _) =>
    case CreateOk(p, _, _) => assert Active(s, p);
    case CreateFails(_) =>
    case CreateInsertsThenFails(p, _, _) => assert Active(s, p) && OwnRow(s, p);
    case Cleanup(p, _) =>
      assert Active(s, p) && OwnRow(s, p);
      var r := s.requests[q];
      if r.Cleaning? && r.inserted.Some? && r.inserted == s.requests[p].inserted {
        assert Inserter(s, q, r.inserted.value) && Inserter(s, p, r.inserted.value);
      }
    case Sweep(_) =>
    case SweepDelete(_, _) =>
    case Fetch(_) =>
    case Statement(_) =>
  }

  lemma InsertionsKept(s: State, e: Event)
    requires Inv(s) && Enabled(s, e)
    ensures Insertions(Next(s, e))
  {
    forall q | Active(Next(s, e), q) ensures OwnRow(Next(s, e), q) {
      OwnRowKept(s, e, q);
    }
    HeldKeys(s);
    forall q, k | Inserter(Next(s, e), q, k)
      ensures Inserter(s, q, k) || (e.CreateInsertsThenFails? && e.request == q && e.token == k && k !in s.db.used)
    {
    }
  }

  lemma BlobsKept(s: State, e: Event)
    requires Inv(s) && Enabled(s, e)
    ensures Blobs(Next(s, e))
  {
    HeldKeys(s);
    match e
    case CreateOk(q, _, _) => assert Active(s, q);
    case CreateInsertsThenFails(q, _, _) => assert Active(s, q);
    case Cleanup(q, _) => assert Active(s, q) && OwnRow(s, q);
    case _ =>
  }

  lemma StepKeepsInv(s: State, e: Event)
    requires Inv(s) && Enabled(s, e)
    ensures Inv(Next(s, e))
  {
    RowsKept(s, e);
    RequestsKept(s, e);
    InsertionsKept(s, e);
    BlobsKept(s, e);
  }

  // ----- Runs -----

  predicate ValidRun(s: State, events: seq<Event>)
    decreases |events|
  {
    events == [] || (Enabled(s, events[0]) && ValidRun(Next(s, events[0]), events[1..]))
  }

  function Run(s: State, events: seq<Event>): State
    requires ValidRun(s, events)
    decreases |events|
  {
    if events == [] then s else Run(Next(s, events[0]), events[1..])
  }

  lemma {:induction false} InvAlways(s: State, events: seq<Event>)
    requires Inv(s) && ValidRun(s, events)
    ensures Inv(Run(s, events))
    decreases |events|
  {
    if events != [] {
      StepKeepsInv(s, events[0]);
      InvAlways(Next(s, events[0]), events[1..]);
    }
  }

  // ----- Which links lose their blob, read off the run -----

  /** The run holds a creation of `k` whose insert took effect and that then failed, and after it the
      deletion of that request's blob. */
  ghost predicate StripsIn(events: seq<Event>, k: string) {
    exists i, j :: 0 <= i < j < |events| && Strips(events[i], events[j], k)
  }

  predicate Strips(e: Event, f: Event, k: string) {
    e.CreateInsertsThenFails? && e.token == k && f == Cleanup(e.request, true)
  }

  /** A request that has already inserted `k` and failed deletes its blob in this run. */
  ghost predicate CleansUp(s: State, events: seq<Event>, k: string) {
    exists q :: Inserter(s, q, k) && Cleanup(q, true) in events
  }

  lemma {:induction false} FinishedIsFinal(s: State, events: seq<Event>, q: nat, deleted: bool)
    requires ValidRun(s, events) && q in s.requests && s.requests[q].Finished?
    ensures Cleanup(q, deleted) !in events
    decreases |events|
  {
    if events != [] {
      FinishedIsFinal(Next(s, events[0]), events[1..], q, deleted);
      assert events == [events[0]] + events[1..];
    }
  }

  lemma InserterStep(s: State, e: Event, q: nat, k: string)
    requires Enabled(s, e)
    ensures Inserter(Next(s, e), q, k) <==>
            (Inserter(s, q, k) && !(e.Cleanup? && e.request == q))
            || (e.CreateInsertsThenFails? && e.request == q && e.token == k)
  {
  }

  lemma StrippedStep(s: State, e: Event, k: string)
    requires Enabled(s, e)
    ensures k in Next(s, e).stripped <==> k in s.stripped || (e.Cleanup? && e.deleted && Inserter(s, e.request, k))
  {
  }

  /** If the first event of a run leads to a strip, so does the run. */
  lemma StripsForward(s: State, events: seq<Event>, k: string)
    requires ValidRun(s, events) && events != []
    requires var s' := Next(s, events[0]);
             k in s'.stripped || CleansUp(s', events[1..], k) || StripsIn(events[1..], k)
    ensures k in s.stripped || CleansUp(s, events, k) || StripsIn(events, k)
  {
    var e, rest := events[0], events[1..];
    var s' := Next(s, e);
    if StripsIn(rest, k) {
      var i, j :| 0 <= i < j < |rest| && Strips(rest[i], rest[j], k);
      assert Strips(events[i + 1], events[j + 1], k);
    } else if CleansUp(s', rest, k) {
      var q :| Inserter(s', q, k) && Cleanup(q, true) in rest;
      var j :| 0 <= j < |rest| && rest[j] == Cleanup(q, true);
      InserterStep(s, e, q, k);
      if Inserter(s, q, k) {
        assert events[j + 1] == Cleanup(q, true);
      } else {
        assert Strips(events[0], events[j + 1], k);
      }
    } else {
      StrippedStep(s, e, k);
      if k !in s.stripped {
        assert events[0] == Cleanup(e.request, true);
      }
    }
  }

  /** And the other way round. */
  lemma StripsBackward(s: State, events: seq<Event>, k: string)
    requires ValidRun(s, events) && events != []
    requires k in s.stripped || CleansUp(s, events, k) || StripsIn(events, k)
    ensures var s' := Next(s, events[0]);
            k in s'.stripped || CleansUp(s', events[1..], k) || StripsIn(events[1..], k)
  {
    var e, rest := events[0], events[1..];
    var s' := Next(s, e);
    StrippedStep(s, e, k);
    if CleansUp(s, events, k) {
      var q :| Inserter(s, q, k) && Cleanup(q, true) in events;
      InserterStep(s, e, q, k);
      assert events == [e] + rest;
      if e == Cleanup(q, false) {
        FinishedIsFinal(s', rest, q, true);
      }
    } else if StripsIn(events, k) {
      var i, j :| 0 <= i < j < |events| && Strips(events[i], events[j], k);
      assert rest[j - 1] == events[j];
      if i == 0 {
        InserterStep(s, e, e.request, k);
      } else {
        assert Strips(rest[i - 1], rest[j - 1], k);
      }
    }
  }

  lemma {:induction false} StrippedIff(s: State, events: seq<Event>, k: string)
    requires ValidRun(s, events)
    ensures k in Run(s, events).stripped <==> k in s.stripped || CleansUp(s, events, k) || StripsIn(events, k)
    decreases |events|
  {
    if events != [] {
      StrippedIff(Next(s, events[0]), events[1..], k);
      if k in Run(s, events).stripped {
        StripsForward(s, events, k);
      } else if k in s.stripped || CleansUp(s, events, k) || StripsIn(events, k) {
        StripsBackward(s, events, k);
      }
    }
  }

  /** In every run the blob of a link in the table is missing exactly when the request that created the
      link inserted its row, still reported an error, and later deleted the blob. */
  lemma LinkHasBlobUnlessStripped(now: int, events: seq<Event>, k: string)
    requires ValidRun(Init(now), events)
    ensures var s := Run(Init(now), events);
            k in s.db.table ==> (RefOf(s, k) in s.blobs <==> !StripsIn(events, k))
  {
    InvAlways(Init(now), events);
    StrippedIff(Init(now), events, k);
  }

  /** When Create's insert and read-back succeed or fail together, every link that can still be
      opened has its blob, through any interleaving of creates, opens and sweeps. */
  lemma OpenableLinkHasBlob(now: int, events: seq<Event>, k: string)
    requires ValidRun(Init(now), events)
    requires forall i :: 0 <= i < |events| ==> !events[i].CreateInsertsThenFails?
    ensures var s := Run(Init(now), events);
            k in s.db.table && Openable(s.db.table[k], s.db.now) ==> RefOf(s, k) in s.blobs
  {
    LinkHasBlobUnlessStripped(now, events, k);
  }

  /** A failed read-back after a successful insert leaves an openable link without its ciphertext. */
  lemma ReadBackFailureStripsLink(input: Input, token: string)
    requires InputOk(input)
    ensures var events := [Put(1, input.blobRef), CreateInsertsThenFails(1, token, input), Cleanup(1, true)];
            && ValidRun(Init(0), events)
            && var s := Run(Init(0), events);
               token in s.db.table && Openable(s.db.table[token], s.db.now) && RefOf(s, token) !in s.blobs
  {
    var e0, e1, e2 := Put(1, input.blobRef), CreateInsertsThenFails(1, token, input), Cleanup(1, true);
    var s1 := Next(Init(0), e0);
    var s2 := Next(s1, e1);
    assert [e0, e1, e2][1..] == [e1, e2] && [e1, e2][1..] == [e2] && [e2][1..] == [];
    var s3 := Next(s2, e2);
    assert ValidRun(s2, [e2]);
    assert ValidRun(s1, [e1, e2]);
    calc {
      Run(Init(0), [e0, e1, e2]);
      Run(s1, [e1, e2]);
      Run(s2, [e2]);
      Run(s3, []);
      s3;
    }
  }
}
