/** Interleaved loads, mutations and invalidations of the site content. A load that misses reads the
    site piece by piece and only later stores what it read, so anything may happen in between. */
module ContentRuns {
  import opened Common
  import opened ContentCache

  datatype Kind = Front | Posts

  /** One piece of content: the site version it was read from, and when. */
  datatype Piece = Piece(version: nat, at: int)

  datatype Load = Load(kind: Kind, begun: int, pieces: seq<Piece>)

  /** A finished load in the cache. */
  datatype Entry = Entry(load: Load, ended: int, exp: int)

  datatype State = State(now: int, version: nat, slots: map<Kind, Entry>, loads: map<nat, Load>)

  datatype Step =
    | Tick(dt: nat)
    | Mutate
    | Invalidate
    | Hit(kind: Kind)
    | Begin(id: nat, of: Kind)
    | Read(id: nat)
    | Fail(id: nat)
    | Finish(id: nat, empty: bool)

  function ExpOf(s: State, k: Kind): Option<int> {
    if k in s.slots then Some(s.slots[k].exp) else None
  }

  predicate Enabled(s: State, e: Step, ttl: int) {
    match e
    case Hit(k) => Serves(ttl, ExpOf(s, k), s.now)
    case Begin(id, k) => id !in s.loads && !Serves(ttl, ExpOf(s, k), s.now)
    case Read(id) => id in s.loads
    case Fail(id) => id in s.loads
    case Finish(id, _) => id in s.loads
    case _ => true
  }

  /** An empty post list overwrites the slot but is never served from it. */
  function Next(s: State, e: Step, ttl: int): State
    requires Enabled(s, e, ttl)
  {
    match e
    case Tick(dt) => s.(now := s.now + dt)
    case Mutate => s.(version := s.version + 1)
    case Invalidate => s.(slots := map[])
    case Hit(_) => s
    case Begin(id, k) => s.(loads := s.loads[id := Load(k, s.now, [])])
    case Read(id) =>
      var l := s.loads[id];
      s.(loads := s.loads[id := l.(pieces := l.pieces + [Piece(s.version, s.now)])])
    case Fail(id) => s.(loads := s.loads - {id})
    case Finish(id, empty) =>
      var l := s.loads[id];
      s.(loads := s.loads - {id},
         slots := if ttl <= 0 then s.slots
                  else if l.kind.Posts? && empty then s.slots - {Posts}
                  else s.slots[l.kind := Entry(l, s.now, s.now + ttl)])
  }

  /** What a step hands to a request: the load behind it and when that load ended. */
  function Served(s: State, e: Step, ttl: int): Option<Entry>
    requires Enabled(s, e, ttl)
  {
    match e
    case Hit(k) => Some(s.slots[k])
    case Finish(id, _) => Some(Entry(s.loads[id], s.now, s.now + ttl))
    case _ => None
  }

  predicate Runs(s: State, run: seq<Step>, ttl: int)
    decreases |run|
  {
    run == [] || (Enabled(s, run[0], ttl) && Runs(Next(s, run[0], ttl), run[1..], ttl))
  }

  function After(s: State, run: seq<Step>, ttl: int): State
    requires Runs(s, run, ttl)
    decreases |run|
  {
    if run == [] then s else After(Next(s, run[0], ttl), run[1..], ttl)
  }

  function Init(now: int): State { State(now, 0, map[], map[]) }

  // ----- Staleness is bounded -----

  predicate Within(l: Load, end: int) {
    l.begun <= end && forall i :: 0 <= i < |l.pieces| ==> l.begun <= l.pieces[i].at <= end
  }

  ghost predicate Inv(s: State, ttl: int) {
    && (forall id :: id in s.loads ==> Within(s.loads[id], s.now))
    && (forall k :: k in s.slots ==>
          var x := s.slots[k]; Within(x.load, x.ended) && x.ended <= s.now && x.exp == x.ended + ttl)
  }

  lemma StepKeepsInv(s: State, e: Step, ttl: int)
    requires Inv(s, ttl) && Enabled(s, e, ttl)
    ensures Inv(Next(s, e, ttl), ttl)
  {
    if e.Read? {
      var l := s.loads[e.id];
      assert Within(l, s.now);
      assert Within(l.(pieces := l.pieces + [Piece(s.version, s.now)]), s.now);
    }
  }

  lemma {:induction false} RunKeepsInv(s: State, run: seq<Step>, ttl: int)
    requires Inv(s, ttl) && Runs(s, run, ttl)
    ensures Inv(After(s, run, ttl), ttl)
    decreases |run|
  {
    if run != [] {
      StepKeepsInv(s, run[0], ttl);
      RunKeepsInv(Next(s, run[0], ttl), run[1..], ttl);
    }
  }

  /** Whatever is served, at any point of any run, was read during its own load, and no earlier than
      the lifetime of the cache plus the duration of that load before now. */
  lemma ServedIsRecent(start: int, run: seq<Step>, e: Step, ttl: int)
    requires Runs(Init(start), run, ttl) && Enabled(After(Init(start), run, ttl), e, ttl)
    ensures var s := After(Init(start), run, ttl);
            var out := Served(s, e, ttl);
            out.Some? ==>
              var l, ended := out.value.load, out.value.ended;
              && l.begun <= ended <= s.now
              && (ended == s.now || s.now < ended + ttl)
              && forall i :: 0 <= i < |l.pieces| ==> s.now - (if ttl > 0 then ttl else 0) - (ended - l.begun) <= l.pieces[i].at <= ended
  {
    RunKeepsInv(Init(start), run, ttl);
    var s := After(Init(start), run, ttl);
    if e.Finish? {
      assert Within(s.loads[e.id], s.now);
    }
  }

  // ----- Where served content comes from -----

  lemma {:induction false} RunsSnoc(s: State, front: seq<Step>, e: Step, ttl: int)
    requires Runs(s, front + [e], ttl)
    ensures Runs(s, front, ttl) && Enabled(After(s, front, ttl), e, ttl)
    ensures After(s, front + [e], ttl) == Next(After(s, front, ttl), e, ttl)
    decreases |front|
  {
    if front == [] {
      assert front + [e] == [e] && [e][1..] == [];
    } else {
      assert (front + [e])[1..] == front[1..] + [e];
      RunsSnoc(Next(s, front[0], ttl), front[1..], e, ttl);
    }
  }

  /** Step n of a run, and the state it is taken in. */
  ghost predicate Taken(start: int, run: seq<Step>, ttl: int, n: nat, e: Step, s: State) {
    n < |run| && run[n] == e && Runs(Init(start), run[..n], ttl) && After(Init(start), run[..n], ttl) == s
  }

  /** The load began at a Begin step of the run, and each piece is what a Read step saw. */
  ghost predicate Traced(start: int, run: seq<Step>, ttl: int, l: Load) {
    && BegunIn(start, run, ttl, l.kind, l.begun)
    && forall i :: 0 <= i < |l.pieces| ==> PieceRead(start, run, ttl, l.pieces[i])
  }

  ghost predicate BegunIn(start: int, run: seq<Step>, ttl: int, kind: Kind, at: int) {
    exists n: nat, id: nat, s: State :: Taken(start, run, ttl, n, Begin(id, kind), s) && s.now == at
  }

  ghost predicate PieceRead(start: int, run: seq<Step>, ttl: int, p: Piece) {
    exists n: nat, id: nat, s: State :: Taken(start, run, ttl, n, Read(id), s) && s.now == p.at && s.version == p.version
  }

  lemma TakenStays(start: int, front: seq<Step>, e: Step, ttl: int, n: nat, f: Step, s: State)
    requires Taken(start, front, ttl, n, f, s)
    ensures Taken(start, front + [e], ttl, n, f, s)
  {
    assert (front + [e])[..n] == front[..n];
  }

  lemma BegunStays(start: int, front: seq<Step>, e: Step, ttl: int, kind: Kind, at: int)
    requires BegunIn(start, front, ttl, kind, at)
    ensures BegunIn(start, front + [e], ttl, kind, at)
  {
    var n: nat, id: nat, s :| Taken(start, front, ttl, n, Begin(id, kind), s) && s.now == at;
    TakenStays(start, front, e, ttl, n, Begin(id, kind), s);
  }

  lemma PieceStays(start: int, front: seq<Step>, e: Step, ttl: int, p: Piece)
    requires PieceRead(start, front, ttl, p)
    ensures PieceRead(start, front + [e], ttl, p)
  {
    var n: nat, id: nat, s :| Taken(start, front, ttl, n, Read(id), s) && s.now == p.at && s.version == p.version;
    TakenStays(start, front, e, ttl, n, Read(id), s);
  }

  lemma TracedStays(start: int, front: seq<Step>, e: Step, ttl: int, l: Load)
    requires Traced(start, front, ttl, l)
    ensures Traced(start, front + [e], ttl, l)
  {
    BegunStays(start, front, e, ttl, l.kind, l.begun);
    forall i | 0 <= i < |l.pieces| ensures PieceRead(start, front + [e], ttl, l.pieces[i]) {
      PieceStays(start, front, e, ttl, l.pieces[i]);
    }
  }

  ghost predicate AllTraced(start: int, run: seq<Step>, ttl: int, s: State) {
    && (forall id :: id in s.loads ==> Traced(start, run, ttl, s.loads[id]))
    && (forall k :: k in s.slots ==> Traced(start, run, ttl, s.slots[k].load))
  }

  lemma NowTaken(start: int, front: seq<Step>, e: Step, ttl: int)
    requires Runs(Init(start), front, ttl)
    ensures Taken(start, front + [e], ttl, |front|, e, After(Init(start), front, ttl))
  {
    assert (front + [e])[..|front|] == front;
  }

  lemma BeginTraced(start: int, front: seq<Step>, id: nat, k: Kind, ttl: int)
    requires Runs(Init(start), front, ttl)
    ensures Traced(start, front + [Begin(id, k)], ttl, Load(k, After(Init(start), front, ttl).now, []))
  {
    NowTaken(start, front, Begin(id, k), ttl);
  }

  lemma ReadTraced(start: int, front: seq<Step>, id: nat, l: Load, ttl: int)
    requires Runs(Init(start), front, ttl) && Traced(start, front, ttl, l)
    ensures var s := After(Init(start), front, ttl);
            Traced(start, front + [Read(id)], ttl, l.(pieces := l.pieces + [Piece(s.version, s.now)]))
  {
    var s, run := After(Init(start), front, ttl), front + [Read(id)];
    var p := Piece(s.version, s.now);
    NowTaken(start, front, Read(id), ttl);
    TracedStays(start, front, Read(id), ttl, l);
    assert PieceRead(start, run, ttl, p);
    var more := l.pieces + [p];
    forall i | 0 <= i < |more| ensures PieceRead(start, run, ttl, more[i]) {
      if i < |l.pieces| {
        assert more[i] == l.pieces[i];
      }
    }
  }

  /** A load in the next state is an old one, begun just now, or read on by one piece. */
  lemma LoadAfter(s: State, e: Step, ttl: int, id: nat)
    requires Enabled(s, e, ttl) && id in Next(s, e, ttl).loads
    ensures var l := Next(s, e, ttl).loads[id];
            || (id in s.loads && l == s.loads[id])
            || (e.Begin? && l == Load(e.of, s.now, []))
            || (e.Read? && e.id == id && id in s.loads
                && l == s.loads[id].(pieces := s.loads[id].pieces + [Piece(s.version, s.now)]))
  {
  }

  lemma SlotAfter(s: State, e: Step, ttl: int, k: Kind)
    requires Enabled(s, e, ttl) && k in Next(s, e, ttl).slots
    ensures var l := Next(s, e, ttl).slots[k].load;
            (k in s.slots && l == s.slots[k].load) || (e.Finish? && l == s.loads[e.id])
  {
  }

  lemma TracedStep(start: int, front: seq<Step>, e: Step, ttl: int)
    requires Runs(Init(start), front, ttl)
    requires var s := After(Init(start), front, ttl); AllTraced(start, front, ttl, s) && Enabled(s, e, ttl)
    ensures AllTraced(start, front + [e], ttl, Next(After(Init(start), front, ttl), e, ttl))
  {
    var s := After(Init(start), front, ttl);
    var s' := Next(s, e, ttl);
    forall id | id in s'.loads ensures Traced(start, front + [e], ttl, s'.loads[id]) {
      LoadAfter(s, e, ttl, id);
      if id in s.loads && s'.loads[id] == s.loads[id] {
        TracedStays(start, front, e, ttl, s.loads[id]);
      } else if e.Begin? {
        BeginTraced(start, front, e.id, e.of, ttl);
      } else {
        ReadTraced(start, front, id, s.loads[id], ttl);
      }
    }
    forall k | k in s'.slots ensures Traced(start, front + [e], ttl, s'.slots[k].load) {
      SlotAfter(s, e, ttl, k);
      TracedStays(start, front, e, ttl, s'.slots[k].load);
    }
  }

  lemma {:induction false} RunIsTraced(start: int, run: seq<Step>, ttl: int)
    requires Runs(Init(start), run, ttl)
    ensures AllTraced(start, run, ttl, After(Init(start), run, ttl))
    decreases |run|
  {
    if run != [] {
      var front, e := run[..|run| - 1], run[|run| - 1];
      assert run == front + [e];
      RunsSnoc(Init(start), front, e, ttl);
      RunIsTraced(start, front, ttl);
      TracedStep(start, front, e, ttl);
    }
  }

  /** Whatever is served was put together by one load of its kind: begun at a Begin of the run, and every
      piece read at a later Read, with the version and the time of that moment. */
  lemma ServedIsTraced(start: int, run: seq<Step>, e: Step, ttl: int)
    requires Runs(Init(start), run, ttl) && Enabled(After(Init(start), run, ttl), e, ttl)
    ensures var out := Served(After(Init(start), run, ttl), e, ttl);
            out.Some? ==> Traced(start, run, ttl, out.value.load)
  {
    RunIsTraced(start, run, ttl);
  }

  // ----- Invalidation -----

  /** Every piece was read from version `v` or a later one. */
  predicate Since(l: Load, v: nat) {
    forall i :: 0 <= i < |l.pieces| ==> l.pieces[i].version >= v
  }

  /** Nothing read before version `v` is in the cache or in flight. */
  ghost predicate Clean(s: State, v: nat) {
    && v <= s.version
    && (forall id :: id in s.loads ==> Since(s.loads[id], v))
    && (forall k :: k in s.slots ==> Since(s.slots[k].load, v))
  }

  /** Nothing a run serves was read before version `v`. */
  ghost predicate ServesSince(s: State, run: seq<Step>, ttl: int, v: nat)
    requires Runs(s, run, ttl)
    decreases |run|
  {
    run != [] ==>
      && (Served(s, run[0], ttl).Some? ==> Since(Served(s, run[0], ttl).value.load, v))
      && ServesSince(Next(s, run[0], ttl), run[1..], ttl, v)
  }

  lemma StepKeepsClean(s: State, e: Step, ttl: int, v: nat)
    requires Clean(s, v) && Enabled(s, e, ttl)
    ensures Clean(Next(s, e, ttl), v)
    ensures Served(s, e, ttl).Some? ==> Since(Served(s, e, ttl).value.load, v)
  {
    match e
    case Read(id) =>
      var l := s.loads[id];
      assert Since(l, v);
      assert Since(l.(pieces := l.pieces + [Piece(s.version, s.now)]), v);
    case Finish(id, _) => assert Since(s.loads[id], v);
    case _ =>
  }

  lemma {:induction false} CleanServesSince(s: State, run: seq<Step>, ttl: int, v: nat)
    requires Clean(s, v) && Runs(s, run, ttl)
    ensures ServesSince(s, run, ttl, v)
    decreases |run|
  {
    if run != [] {
      StepKeepsClean(s, run[0], ttl, v);
      CleanServesSince(Next(s, run[0], ttl), run[1..], ttl, v);
    }
  }

  /** Invalidating with no load in flight: every later request is answered from content read after the
      mutation. */
  lemma InvalidateTakesEffect(s: State, run: seq<Step>, ttl: int)
    requires s.loads == map[] && Runs(Next(s, Invalidate, ttl), run, ttl)
    ensures ServesSince(Next(s, Invalidate, ttl), run, ttl, s.version)
  {
    CleanServesSince(Next(s, Invalidate, ttl), run, ttl, s.version);
  }

  ghost predicate AlwaysSince(s: State, ttl: int, v: nat) {
    forall run :: Runs(s, run, ttl) ==> ServesSince(s, run, ttl, v)
  }

  /** Exactly: it takes effect on every continuation iff no load in flight has already read a piece of
      an older version. */
  lemma InvalidateTakesEffectIff(s: State, ttl: int)
    ensures AlwaysSince(Next(s, Invalidate, ttl), ttl, s.version)
       <==> (forall id :: id in s.loads ==> Since(s.loads[id], s.version))
  {
    var t := Next(s, Invalidate, ttl);
    if forall id :: id in s.loads ==> Since(s.loads[id], s.version) {
      forall run | Runs(t, run, ttl) ensures ServesSince(t, run, ttl, s.version) {
        CleanServesSince(t, run, ttl, s.version);
      }
    } else {
      var id :| id in s.loads && !Since(s.loads[id], s.version);
      var run := [Finish(id, false)];
      assert Runs(Next(t, run[0], ttl), run[1..], ttl);
      assert Runs(t, run, ttl) && !ServesSince(t, run, ttl, s.version);
      assert !AlwaysSince(t, ttl, s.version);
    }
  }

  /** And the stale load then stays in the cache: for its whole lifetime after the invalidation a
      request is answered from it, unless another load or invalidation comes first. */
  lemma StaleLoadRefillsCache(s: State, id: nat, wait: nat, ttl: int)
    requires id in s.loads && wait < ttl
    ensures var refilled := Next(Next(s, Invalidate, ttl), Finish(id, false), ttl);
            var later := Next(refilled, Tick(wait), ttl);
            var hit := Hit(s.loads[id].kind);
            Enabled(later, hit, ttl) && Served(later, hit, ttl).value.load == s.loads[id]
  {
    var refilled := Next(Next(s, Invalidate, ttl), Finish(id, false), ttl);
    assert refilled.slots[s.loads[id].kind] == Entry(s.loads[id], s.now, s.now + ttl);
  }
}
