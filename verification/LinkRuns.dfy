/** Runs of the protected-link statements, one event per SQL statement. An open is a
    Consume and, when that changes no row, a later Lookup that tells a dead link from a
    missing one; other events may fall in between. */
module LinkRuns {
  import opened Common
  import opened Links

  /** `used` holds every token ever drawn: fresh tokens are never drawn twice. */
  datatype State = State(table: Table, now: int, used: set<string>)

  datatype Event =
    | Tick(dt: nat)
    | Create(token: string, input: Input)
    | Consume(token: string)
    | Lookup(token: string)
    | Delete(token: string)
    | Purge(victims: set<string>)

  datatype Answer = Silent | Won(row: Link, at: int) | Refused | Found(row: Link, at: int) | Missing

  predicate Enabled(s: State, e: Event) {
    match e
    case Create(k, input) => k !in s.used && InputOk(input)
    case Purge(victims) => victims <= PurgeableTokens(s.table, s.now)
    case _ => true
  }

  function Next(s: State, e: Event): State
    requires Enabled(s, e)
  {
    match e
    case Tick(dt) => s.(now := s.now + dt)
    case Create(k, input) => s.(table := s.table[k := NewLink(input, s.now)], used := s.used + {k})
    case Consume(k) =>
      if k in s.table && Openable(s.table[k], s.now) then s.(table := s.table[k := Viewed(s.table[k], s.now)]) else s
    case Lookup(_) => s
    case Delete(k) => s.(table := s.table - {k})
    case Purge(victims) => s.(table := s.table - victims)
  }

  function Reply(s: State, e: Event): Answer {
    match e
    case Consume(k) =>
      if k in s.table && Openable(s.table[k], s.now) then Won(Viewed(s.table[k], s.now), s.now) else Refused
    case Lookup(k) => if k in s.table then Found(s.table[k], s.now) else Missing
    case _ => Silent
  }

  predicate ValidRun(s: State, events: seq<Event>)
    decreases |events|
  {
    events == [] || (Enabled(s, events[0]) && ValidRun(Next(s, events[0]), events[1..]))
  }

  function Run(s: State, events: seq<Event>): State
    requires ValidRun(s, events)
    decreases |events|
  {
    if events == [] then s else Run(Next(s, events[0]), events[1..])
  }

  predicate WellFormed(s: State) {
    s.table.Keys <= s.used && forall k :: k in s.table ==> Consistent(s.table[k])
  }

  lemma NextWellFormed(s: State, e: Event)
    requires WellFormed(s) && Enabled(s, e)
    ensures WellFormed(Next(s, e))
  {
  }

  // ----- Purging refines not purging -----

  /** The answers of a run, leaving out purges, which have no caller. */
  function Answers(s: State, events: seq<Event>): seq<Answer>
    requires ValidRun(s, events)
    decreases |events|
  {
    if events == [] then []
    else (if events[0].Purge? then [] else [Reply(s, events[0])]) + Answers(Next(s, events[0]), events[1..])
  }

  function WithoutPurges(events: seq<Event>): seq<Event> {
    if events == [] then []
    else (if events[0].Purge? then [] else [events[0]]) + WithoutPurges(events[1..])
  }

  /** The purged table keeps the other's rows, and only dead rows are missing from it. */
  ghost predicate Purged(p: State, u: State) {
    && p.now == u.now && p.used == u.used
    && p.table.Keys <= u.table.Keys <= u.used
    && (forall k :: k in p.table ==> p.table[k] == u.table[k])
    && (forall k :: k in u.table && k !in p.table ==> Purgeable(u.table[k], u.now))
  }

  /** The same answer, or a lookup that finds nothing where a dead row used to be. */
  predicate Agree(a: Answer, b: Answer) {
    a == b || (a.Missing? && b.Found? && Purgeable(b.row, b.at))
  }

  lemma PurgedStep(p: State, u: State, e: Event)
    requires Purged(p, u) && Enabled(p, e)
    ensures if e.Purge? then Purged(Next(p, e), u)
            else Enabled(u, e) && Purged(Next(p, e), Next(u, e)) && Agree(Reply(p, e), Reply(u, e))
  {
  }

  ghost predicate AllAgree(a: seq<Answer>, b: seq<Answer>) {
    |a| == |b| && forall i :: 0 <= i < |a| ==> Agree(a[i], b[i])
  }

  lemma AgreeCons(x: Answer, a: seq<Answer>, y: Answer, b: seq<Answer>)
    requires Agree(x, y) && AllAgree(a, b)
    ensures AllAgree([x] + a, [y] + b)
  {
  }

  lemma {:induction false} PurgingRefines(p: State, u: State, events: seq<Event>)
    requires Purged(p, u) && ValidRun(p, events)
    ensures ValidRun(u, WithoutPurges(events))
    ensures AllAgree(Answers(p, events), Answers(u, WithoutPurges(events)))
    decreases |events|
  {
    if events != [] {
      var e, rest := events[0], events[1..];
      PurgedStep(p, u, e);
      if e.Purge? {
        PurgingRefines(Next(p, e), u, rest);
        assert WithoutPurges(events) == WithoutPurges(rest);
        assert Answers(p, events) == Answers(Next(p, e), rest);
      } else {
        PurgingRefines(Next(p, e), Next(u, e), rest);
        var kept := WithoutPurges(rest);
        assert WithoutPurges(events) == [e] + kept;
        assert ([e] + kept)[1..] == kept;
        AgreeCons(Reply(p, e), Answers(Next(p, e), rest), Reply(u, e), Answers(Next(u, e), kept));
      }
    }
  }

  /** What the caller of an open sees, from its consuming answer at i and, if that was refused, its lookup at j. */
  function OpenResult(answers: seq<Answer>, i: nat, j: nat): Result<Link, Error>
    requires i < |answers| && j < |answers|
  {
    if answers[i].Won? then Ok(answers[i].row) else if answers[j].Found? then Err(Burned) else Err(NotFound)
  }

  /** Interleaving purges anywhere leaves every successful open and its result unchanged;
      it can only turn Burned into NotFound. */
  lemma PurgeIsInvisibleToOpens(s: State, events: seq<Event>, i: nat, j: nat)
    requires WellFormed(s) && ValidRun(s, events)
    requires i < |Answers(s, events)| && j < |Answers(s, events)|
    ensures ValidRun(s, WithoutPurges(events)) && |Answers(s, WithoutPurges(events))| == |Answers(s, events)|
    ensures var with, without := OpenResult(Answers(s, events), i, j), OpenResult(Answers(s, WithoutPurges(events)), i, j);
            with == without || (with == Err(NotFound) && without == Err(Burned))
    ensures OpenResult(Answers(s, events), i, j).Ok? <==> OpenResult(Answers(s, WithoutPurges(events)), i, j).Ok?
  {
    PurgingRefines(s, s, events);
    assert Agree(Answers(s, events)[i], Answers(s, WithoutPurges(events))[i]);
    assert Agree(Answers(s, events)[j], Answers(s, WithoutPurges(events))[j]);
  }

  // ----- The bounded view counter -----

  datatype Win = Win(row: Link, at: int)

  /** The successful opens of one token, in order. */
  function Wins(s: State, events: seq<Event>, k: string): seq<Win>
    requires ValidRun(s, events)
    decreases |events|
  {
    if events == [] then []
    else
      (if events[0] == Consume(k) && Reply(s, events[0]).Won? then [Win(Reply(s, events[0]).row, s.now)] else [])
      + Wins(Next(s, events[0]), events[1..], k)
  }

  lemma {:induction false} GoneForGood(s: State, events: seq<Event>, k: string)
    requires k !in s.table && k in s.used && ValidRun(s, events)
    ensures Wins(s, events, k) == [] && k !in Run(s, events).table
    decreases |events|
  {
    if events != [] {
      GoneForGood(Next(s, events[0]), events[1..], k);
    }
  }

  /** One win of a link that started at row r: the n-th view, before expiry, burning exactly at the bound. */
  ghost predicate CountedWin(r: Link, n: nat, w: Win) {
    && w.row.views == n && w.row.maxViews == r.maxViews && w.row.input == r.input
    && w.at < r.expiresAt
    && (r.maxViews > 0 ==> n <= r.maxViews)
    && (w.row.burnedAt == if r.maxViews > 0 && n == r.maxViews then Some(w.at) else None)
  }

  /** Wins that carry on counting from row r. */
  ghost predicate CountedFrom(r: Link, w: seq<Win>) {
    && (forall i :: 0 <= i < |w| ==> CountedWin(r, r.views + i + 1, w[i]))
    && (r.maxViews > 0 ==> r.views + |w| <= r.maxViews)
  }

  lemma CountedCons(r: Link, at: int, w: seq<Win>)
    requires Consistent(r) && Openable(r, at) && CountedFrom(Viewed(r, at), w)
    ensures CountedFrom(r, [Win(Viewed(r, at), at)] + w)
  {
    var r', all := Viewed(r, at), [Win(Viewed(r, at), at)] + w;
    forall i | 0 <= i < |all| ensures CountedWin(r, r.views + i + 1, all[i]) {
      if i > 0 {
        var j := i - 1;
        assert all[i] == w[j];
        assert CountedWin(r', r'.views + j + 1, w[j]);
      }
    }
  }

  /** A row that survives a step changed only if the step opened it. */
  lemma RowAfter(s: State, e: Event, k: string)
    requires WellFormed(s) && Enabled(s, e) && k in s.table && k in Next(s, e).table
    ensures if e == Consume(k) && Openable(s.table[k], s.now)
            then Next(s, e).table[k] == Viewed(s.table[k], s.now) && Reply(s, e) == Won(Viewed(s.table[k], s.now), s.now)
            else Next(s, e).table[k] == s.table[k] && (e == Consume(k) ==> Reply(s, e) == Refused)
  {
  }

  /** Under any interleaving the successful opens of a link carry the views 1, 2, 3, ... from where it
      stood, none at or after expiry and none past max_views; the stored counter equals their number. */
  lemma {:induction false} ViewsAreCounted(s: State, events: seq<Event>, k: string)
    requires WellFormed(s) && k in s.table && ValidRun(s, events)
    ensures CountedFrom(s.table[k], Wins(s, events, k))
    ensures k in Run(s, events).table ==> Run(s, events).table[k].views == s.table[k].views + |Wins(s, events, k)|
    decreases |events|
  {
    if events == [] {
      assert Consistent(s.table[k]);
    } else {
      var e, rest := events[0], events[1..];
      var s' := Next(s, e);
      NextWellFormed(s, e);
      if k in s'.table {
        ViewsAreCounted(s', rest, k);
        RowAfter(s, e, k);
        if e == Consume(k) && Openable(s.table[k], s.now) {
          CountedCons(s.table[k], s.now, Wins(s', rest, k));
        } else {
          assert Wins(s, events, k) == Wins(s', rest, k);
        }
      } else {
        assert Consistent(s.table[k]);
        GoneForGood(s', rest, k);
        assert Wins(s, events, k) == [];
      }
    }
  }

  /** From creation on: the remaining views handed out are max-1, max-2, ..., without repeat or gap. */
  lemma RemainingCountsDown(s: State, k: string, input: Input, events: seq<Event>, i: nat)
    requires WellFormed(s) && Enabled(s, Create(k, input)) && input.maxViews > 0
    requires ValidRun(Next(s, Create(k, input)), events) && i < |Wins(Next(s, Create(k, input)), events, k)|
    ensures var w := Wins(Next(s, Create(k, input)), events, k)[i];
            && w.row.maxViews - w.row.views == input.maxViews - 1 - i >= 0
            && (w.row.burnedAt.Some? <==> i == input.maxViews - 1)
            && w.at < s.now + input.ttl
  {
    var s' := Next(s, Create(k, input));
    NextWellFormed(s, Create(k, input));
    ViewsAreCounted(s', events, k);
    assert CountedWin(s'.table[k], i + 1, Wins(s', events, k)[i]);
  }

  function Attempts(events: seq<Event>, k: string): nat {
    if events == [] then 0 else (if events[0] == Consume(k) then 1 else 0) + Attempts(events[1..], k)
  }

  lemma {:induction false} TimeGoesOn(s: State, events: seq<Event>)
    requires ValidRun(s, events)
    ensures s.now <= Run(s, events).now
    decreases |events|
  {
    if events != [] {
      TimeGoesOn(Next(s, events[0]), events[1..]);
    }
  }

  /** If the run ends before the link expires and nobody deletes it, exactly min(attempts, views left)
      opens succeed, however they interleave with purges and with other links. */
  lemma {:induction false} ExactlyTheBoundSucceed(s: State, events: seq<Event>, k: string)
    requires WellFormed(s) && k in s.table && s.table[k].maxViews > 0 && ValidRun(s, events)
    requires Delete(k) !in events && Run(s, events).now < s.table[k].expiresAt
    ensures |Wins(s, events, k)| == Min(Attempts(events, k), s.table[k].maxViews - s.table[k].views)
    decreases |events|
  {
    if events != [] {
      var e := events[0];
      var s' := Next(s, e);
      NextWellFormed(s, e);
      TimeGoesOn(s', events[1..]);
      if k in s'.table {
        ExactlyTheBoundSucceed(s', events[1..], k);
      } else {
        GoneForGood(s', events[1..], k);
      }
    }
  }

  /** Once meta reports a link expired, no open of it succeeds in any continuation. */
  lemma {:induction false} MetaExpiredIsFinal(s: State, events: seq<Event>, k: string)
    requires WellFormed(s) && k in s.table && MetaExpired(s.table[k], s.now) && ValidRun(s, events)
    ensures Wins(s, events, k) == []
    decreases |events|
  {
    if events != [] {
      var s' := Next(s, events[0]);
      NextWellFormed(s, events[0]);
      if k in s'.table {
        MetaExpiredIsFinal(s', events[1..], k);
      } else {
        GoneForGood(s', events[1..], k);
      }
    }
  }

  /** A deleted link is never opened again. */
  lemma DeletedNeverOpens(s: State, events: seq<Event>, k: string)
    requires WellFormed(s) && k in s.table && ValidRun(Next(s, Delete(k)), events)
    ensures Wins(Next(s, Delete(k)), events, k) == []
  {
    GoneForGood(Next(s, Delete(k)), events, k);
  }

  // ----- The store takes the steps of the runs -----

  /** An open of the store is a Consume and, if refused, the Lookup right after it. */
  method StoreOpens(store: LinkStore, k: string, s: State) returns (r: Result<Consumed, Error>)
    requires store.rows == s.table && ValidToken(k)
    modifies store
    ensures store.rows == Next(s, Consume(k)).table
    ensures match r
            case Ok(c) => Reply(s, Consume(k)) == Won(c.row, s.now)
            case Err(e) =>
              Reply(s, Consume(k)) == Refused && e == if Reply(s, Lookup(k)).Found? then Burned else NotFound
  {
    ValidTokenUntrimmed(k);
    r := store.ConsumeView(k, s.now);
  }

  method StoreCreates(store: LinkStore, k: string, input: Input, s: State) returns (r: Result<Link, Error>)
    requires store.rows == s.table && ValidToken(k) && k !in s.used && WellFormed(s)
    modifies store
    ensures r.Ok? <==> Enabled(s, Create(k, input))
    ensures store.rows == if r.Ok? then Next(s, Create(k, input)).table else s.table
  {
    r := store.Create(input, k, s.now);
  }

  method StoreRemoves(store: LinkStore, k: string, s: State)
    requires store.rows == s.table
    modifies store
    ensures store.rows == Next(s, Delete(k)).table
  {
    store.Delete(k);
  }

  method StorePurges(store: LinkStore, limit: int, s: State) returns (victims: set<string>)
    requires store.rows == s.table
    modifies store
    ensures Enabled(s, Purge(victims)) && store.rows == Next(s, Purge(victims)).table
  {
    victims := store.PurgeExpired(limit, s.now);
  }
}
