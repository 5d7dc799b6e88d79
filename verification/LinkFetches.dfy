/** Opening a protected link: the view is consumed first and the ciphertext fetched afterwards, and a
    sweep may come in between. */
module LinkFetches {
  import opened Links
  import opened LinkBlobs
  import Db = LinkRuns

  /** The consuming statement of an open succeeds here. */
  predicate Wins(s: State, k: string) {
    k in s.db.table && Openable(s.db.table[k], s.db.now)
  }

  function Open(k: string): Event {
    Statement(Db.Consume(k))
  }

  /** Whether a Fetch of this key at this point finds the ciphertext. */
  predicate Found(s: State, key: string) {
    key in s.blobs
  }

  // ----- Following one blob through a run -----

  /** `ref` was drawn for `k`, and the only request that may still hold it inserted `k`. */
  ghost predicate Tracks(s: State, k: string, ref: string) {
    && k in s.db.used && ref in s.drawn
    && forall q :: (Active(s, q) && s.requests[q].key == ref) <==> Inserter(s, q, k)
  }

  lemma RowTracks(s: State, k: string)
    requires Inv(s) && k in s.db.table
    ensures Tracks(s, k, RefOf(s, k))
  {
    forall q | Active(s, q) ensures s.requests[q].key == RefOf(s, k) <==> Inserter(s, q, k) {
      assert OwnRow(s, q);
    }
  }

  lemma TracksStep(s: State, e: Event, k: string, ref: string)
    requires Tracks(s, k, ref) && Enabled(s, e)
    ensures Tracks(Next(s, e), k, ref)
  {
    var s' := Next(s, e);
    forall q ensures (Active(s', q) && s'.requests[q].key == ref) <==> Inserter(s', q, k) {
      assert (Active(s, q) && s.requests[q].key == ref) <==> Inserter(s, q, k);
      InserterStep(s, e, q, k);
    }
  }

  /** One step loses the blob only as a sweep's deletion or by stripping the link. */
  lemma BlobStep(s: State, e: Event, k: string, ref: string)
    requires Inv(s) && Tracks(s, k, ref) && Enabled(s, e)
    ensures ref in Next(s, e).blobs <==>
            ref in s.blobs && e != SweepDelete(ref, true) && (k in Next(s, e).stripped <==> k in s.stripped)
  {
    StrippedStep(s, e, k);
    if e.Cleanup? {
      var q := e.request;
      assert (Active(s, q) && s.requests[q].key == ref) <==> Inserter(s, q, k);
      assert Active(s, q) && OwnRow(s, q);
    }
  }

  lemma {:induction false} StrippedStays(s: State, events: seq<Event>, k: string)
    requires ValidRun(s, events) && k in s.stripped
    ensures k in Run(s, events).stripped
    decreases |events|
  {
    if events != [] {
      StrippedStays(Next(s, events[0]), events[1..], k);
    }
  }

  lemma {:induction false} BlobAfter(s: State, events: seq<Event>, k: string, ref: string)
    requires Inv(s) && Tracks(s, k, ref) && ValidRun(s, events)
    ensures ref in Run(s, events).blobs <==>
            ref in s.blobs && SweepDelete(ref, true) !in events && (k in Run(s, events).stripped <==> k in s.stripped)
    decreases |events|
  {
    if events != [] {
      var e, rest := events[0], events[1..];
      var s' := Next(s, e);
      StepKeepsInv(s, e);
      TracksStep(s, e, k, ref);
      BlobStep(s, e, k, ref);
      BlobAfter(s', rest, k, ref);
      StrippedStep(s, e, k);
      if k in s'.stripped {
        StrippedStays(s', rest, k);
      }
      assert events == [e] + rest;
    }
  }

  // ----- Won opens -----

  lemma {:induction false} RunAppend(s: State, a: seq<Event>, b: seq<Event>)
    requires ValidRun(s, a) && ValidRun(Run(s, a), b)
    ensures ValidRun(s, a + b) && Run(s, a + b) == Run(Run(s, a), b)
    decreases |a|
  {
    if a == [] {
      assert a + b == b;
    } else {
      RunAppend(Next(s, a[0]), a[1..], b);
      assert (a + b)[1..] == a[1..] + b;
    }
  }

  lemma RunOne(s: State, e: Event)
    requires Enabled(s, e)
    ensures ValidRun(s, [e]) && Run(s, [e]) == Next(s, e)
  {
    assert [e][1..] == [];
  }

  /** A run with one open inside it. */
  lemma RunThrough(now: int, before: seq<Event>, e: Event, rest: seq<Event>)
    requires ValidRun(Init(now), before) && Enabled(Run(Init(now), before), e)
    requires ValidRun(Next(Run(Init(now), before), e), rest)
    ensures ValidRun(Init(now), before + [e] + rest)
    ensures Run(Init(now), before + [e] + rest) == Run(Next(Run(Init(now), before), e), rest)
  {
    RunOne(Run(Init(now), before), e);
    RunAppend(Init(now), before, [e]);
    RunAppend(Init(now), before + [e], rest);
  }

  /** A won open finds its ciphertext exactly when, since it won, no sweep has deleted it, and the link was
      not stripped by its creating request. */
  lemma WonOpenFindsBlob(now: int, before: seq<Event>, k: string, rest: seq<Event>)
    requires ValidRun(Init(now), before) && Wins(Run(Init(now), before), k)
    requires ValidRun(Next(Run(Init(now), before), Open(k)), rest)
    ensures var s := Run(Init(now), before);
            Found(Run(Next(s, Open(k)), rest), RefOf(s, k)) <==>
            SweepDelete(RefOf(s, k), true) !in rest && !StripsIn(before + [Open(k)] + rest, k)
  {
    var s := Run(Init(now), before);
    var s1 := Next(s, Open(k));
    InvAlways(Init(now), before);
    StepKeepsInv(s, Open(k));
    RowTracks(s1, k);
    BlobAfter(s1, rest, k, RefOf(s1, k));
    var t := Run(s1, rest);
    RunThrough(now, before, Open(k), rest);
    StrippedIff(Init(now), before + [Open(k)] + rest, k);
    if k in s1.stripped {
      StrippedStays(s1, rest, k);
    }
  }

  /** A sweep takes row k at step n of the run: it was dead by then. */
  ghost predicate Swept(s: State, events: seq<Event>, n: nat, k: string)
    requires ValidRun(s, events)
  {
    && n < |events| && events[n].Sweep? && k in events[n].victims
    && ValidRun(s, events[..n])
    && var u := Run(s, events[..n]);
       k in u.db.table && Purgeable(u.db.table[k], u.db.now)
  }

  lemma SweptLater(s: State, events: seq<Event>, n: nat, k: string)
    requires ValidRun(s, events) && events != [] && Swept(Next(s, events[0]), events[1..], n, k)
    ensures Swept(s, events, n + 1, k)
  {
    assert events[..n + 1][1..] == events[1..][..n];
  }

  /** Only a sweep that took the row itself deletes its blob, so the link's views were used up or it had
      expired by then. */
  lemma {:induction false} OnlyDeadLinksAreSwept(s: State, events: seq<Event>, k: string, deleted: bool) returns (n: nat)
    requires Inv(s) && k in s.db.table && ValidRun(s, events) && SweepDelete(RefOf(s, k), deleted) in events
    ensures Swept(s, events, n, k)
    decreases |events|
  {
    var e, rest := events[0], events[1..];
    StepKeepsInv(s, e);
    if e.Sweep? && k in e.victims {
      n := 0;
      assert events[..0] == [];
    } else {
      assert e != SweepDelete(RefOf(s, k), deleted);
      assert events == [e] + rest;
      n := OnlyDeadLinksAreSwept(Next(s, e), rest, k, deleted);
      SweptLater(s, events, n, k);
      n := n + 1;
    }
  }

  /** A won open that misses its ciphertext lost it to a sweep that took the row as dead, unless the link
      was stripped by its creating request. */
  lemma LostOnlyWhenDead(now: int, before: seq<Event>, k: string, rest: seq<Event>) returns (n: nat)
    requires ValidRun(Init(now), before) && Wins(Run(Init(now), before), k)
    requires ValidRun(Next(Run(Init(now), before), Open(k)), rest)
    requires !Found(Run(Next(Run(Init(now), before), Open(k)), rest), RefOf(Run(Init(now), before), k))
    requires !StripsIn(before + [Open(k)] + rest, k)
    ensures Swept(Next(Run(Init(now), before), Open(k)), rest, n, k)
  {
    WonOpenFindsBlob(now, before, k, rest);
    InvAlways(Init(now), before);
    StepKeepsInv(Run(Init(now), before), Open(k));
    n := OnlyDeadLinksAreSwept(Next(Run(Init(now), before), Open(k)), rest, k, true);
  }

  // ----- Dead links go -----

  lemma {:induction false} GoneStaysGone(s: State, events: seq<Event>, k: string)
    requires ValidRun(s, events) && k in s.db.used && k !in s.db.table
    ensures k !in Run(s, events).db.table
    decreases |events|
  {
    if events != [] {
      GoneStaysGone(Next(s, events[0]), events[1..], k);
    }
  }

  /** A link that has expired or used up its views is taken by any sweep that stays below its limit, and
      once that sweep has deleted the blob neither row nor blob ever comes back. */
  lemma DeadLinkIsSwept(now: int, before: seq<Event>, k: string, limit: nat, victims: set<string>, rest: seq<Event>)
    requires ValidRun(Init(now), before) && k in Run(Init(now), before).db.table
    requires var s := Run(Init(now), before);
             var r := s.db.table[k];
             && (r.expiresAt < s.db.now || (r.maxViews > 0 && r.views >= r.maxViews))
             && IsPurgeChoice(s.db.table, s.db.now, limit, victims) && |victims| < limit
    ensures var s := Run(Init(now), before);
            var swept := Next(s, Sweep(victims));
            var del := SweepDelete(RefOf(s, k), true);
            && k !in swept.db.table && Enabled(swept, del)
            && (ValidRun(Next(swept, del), rest) ==>
                  k !in Run(Next(swept, del), rest).db.table && RefOf(s, k) !in Run(Next(swept, del), rest).blobs)
  {
    var s := Run(Init(now), before);
    var ref := RefOf(s, k);
    InvAlways(Init(now), before);
    RowTracks(s, k);
    var sweep, del := Sweep(victims), SweepDelete(ref, true);
    assert k in PurgeableTokens(s.db.table, s.db.now);
    StepKeepsInv(s, sweep);
    TracksStep(s, sweep, k, ref);
    var swept := Next(s, sweep);
    assert ref in swept.doomed;
    StepKeepsInv(swept, del);
    TracksStep(swept, del, k, ref);
    if ValidRun(Next(swept, del), rest) {
      BlobAfter(Next(swept, del), rest, k, ref);
      GoneStaysGone(Next(swept, del), rest, k);
    }
  }

  /** The lost last view: the open wins the only view, which makes the row purgeable at once; the sweep
      deletes row and blob, and the fetch finds nothing. */
  function LostView(input: Input, token: string): seq<Event> {
    [Put(1, input.blobRef), CreateOk(1, token, input), Open(token), Sweep({token}), SweepDelete(input.blobRef, true)]
  }

  lemma LastViewCanBeLost(input: Input, token: string)
    requires InputOk(input) && input.maxViews == 1
    ensures var created := LostView(input, token)[..2];
            && ValidRun(Init(0), created) && Wins(Run(Init(0), created), token)
            && RefOf(Run(Init(0), created), token) == input.blobRef
    ensures ValidRun(Init(0), LostView(input, token)) && !Found(Run(Init(0), LostView(input, token)), input.blobRef)
  {
    var s := LinkCreated(input, token);
    var all := LostView(input, token);
    LostTail(s, input, token);
    assert all == all[..2] + all[2..];
    RunAppend(Init(0), all[..2], all[2..]);
  }

  lemma LinkCreated(input: Input, token: string) returns (s: State)
    requires InputOk(input)
    ensures ValidRun(Init(0), LostView(input, token)[..2]) && s == Run(Init(0), LostView(input, token)[..2])
    ensures s.db.table == map[token := NewLink(input, 0)] && s.db.now == 0 && input.blobRef in s.blobs
  {
    var put, create := Put(1, input.blobRef), CreateOk(1, token, input);
    RunOne(Init(0), put);
    var s1 := Next(Init(0), put);
    RunOne(s1, create);
    RunAppend(Init(0), [put], [create]);
    assert LostView(input, token)[..2] == [put] + [create];
    s := Next(s1, create);
  }

  lemma LostTail(s: State, input: Input, token: string)
    requires InputOk(input) && input.maxViews == 1
    requires s.db.table == map[token := NewLink(input, 0)] && s.db.now == 0 && input.blobRef in s.blobs
    ensures Wins(s, token) && RefOf(s, token) == input.blobRef
    ensures var tail := LostView(input, token)[2..];
            ValidRun(s, tail) && input.blobRef !in Run(s, tail).blobs
  {
    var open, sweep, del := Open(token), Sweep({token}), SweepDelete(input.blobRef, true);
    assert LostView(input, token)[2..] == [open] + [sweep] + [del];
    var s1 := Next(s, open);
    assert Purgeable(s1.db.table[token], s1.db.now);
    var s2 := Next(s1, sweep);
    assert s1.db.table[token].input.blobRef == input.blobRef;
    RunOne(s, open);
    RunOne(s1, sweep);
    RunAppend(s, [open], [sweep]);
    RunOne(s2, del);
    RunAppend(s, [open] + [sweep], [del]);
  }
}
