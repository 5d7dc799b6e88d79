/** Concurrent lookups over the two caches. A lookup that misses the cache asks the chain and,
    possibly later, writes the outcome back; the steps of many lookups interleave freely and the
    backing stores may be absent or fail at any write. */
module KeyCacheRuns {
  import opened Common
  import opened Text
  import opened KeyResolver

  /** One completed pass over the chain of sources. */
  datatype Answered = Answered(email: string, answer: Option<KeyHit>, at: int)

  /** The caches, the passes not yet written back, every pass so far, and for each cache entry the
      pass it came from. */
  datatype State = State(now: int, rows: map<Key, Row>, neg: map<string, int>, inflight: map<nat, Answered>,
                         log: set<Answered>, rowFrom: map<Key, Answered>, negFrom: map<string, Answered>)

  datatype Ttl = Ttl(neg: int, pos: int)

  datatype Step =
    | Tick(dt: nat)
    | ChainAnswers(id: nat, email: string, answer: Option<KeyHit>)
    | WriteBack(id: nat, persist: Backend, valkey: Backend)
    | Bust(email: string)

  function Init(now: int): State {
    State(now, map[], map[], map[], {}, map[], map[])
  }

  /** A source answers for the address it was asked about. */
  predicate OwnAnswer(email: string, answer: Option<KeyHit>) {
    LowerTrim(email) == email && (answer.Some? ==> LowerTrim(answer.value.email) == email)
  }

  predicate Enabled(s: State, step: Step) {
    match step
    case ChainAnswers(id, email, answer) => id !in s.inflight && OwnAnswer(email, answer)
    case WriteBack(id, _, _) => id in s.inflight
    case _ => true
  }

  function Next(s: State, step: Step, ttl: Ttl): State
    requires Enabled(s, step)
  {
    match step
    case Tick(dt) => s.(now := s.now + dt)
    case ChainAnswers(id, email, answer) =>
      var a := Answered(email, answer, s.now);
      s.(inflight := s.inflight[id := a], log := s.log + {a})
    case WriteBack(id, persist, valkey) =>
      var a := s.inflight[id];
      s.(rows := RowsAfter(s.rows, a.answer, ttl.pos, s.now, persist),
         neg := NegAfter(s.neg, a.email, a.answer, ttl.neg, s.now, persist, valkey),
         rowFrom := if a.answer.Some? && persist.Working? then s.rowFrom[(a.email, a.answer.value.fingerprint) := a] else s.rowFrom,
         negFrom := if a.answer.None? && valkey.Working? then s.negFrom[a.email := a] else s.negFrom,
         inflight := s.inflight - {id})
    case Bust(email) => s.(rows := map k | k in s.rows && k.0 != email :: s.rows[k])
  }

  // ----- The invariant -----

  /** A positive entry holds what one pass of the chain said, until that answer's own expiry. */
  predicate GoodRow(k: Key, r: Row, from: Answered, ttl: Ttl, now: int) {
    && from.email == k.0 && from.answer.Some? && from.answer.value.fingerprint == k.1
    && RowCore(k.1, r) == CoreOf(from.answer.value)
    && from.at <= r.fetchedAt <= now
    && r.expiresAt == if from.answer.value.expiresAt.Some? then from.answer.value.expiresAt.value else r.fetchedAt + ttl.pos
  }

  /** A negative entry was written, NegTTL before it lapses, after a pass that found nothing. */
  predicate GoodMiss(email: string, lapses: int, from: Answered, ttl: Ttl, now: int) {
    from.email == email && from.answer.None? && from.at <= lapses - ttl.neg <= now
  }

  ghost predicate RowsGood(s: State, ttl: Ttl) {
    forall k :: k in s.rows ==> k in s.rowFrom && s.rowFrom[k] in s.log && GoodRow(k, s.rows[k], s.rowFrom[k], ttl, s.now)
  }

  ghost predicate MissesGood(s: State, ttl: Ttl) {
    forall e :: e in s.neg ==> e in s.negFrom && s.negFrom[e] in s.log && GoodMiss(e, s.neg[e], s.negFrom[e], ttl, s.now)
  }

  ghost predicate FlightsGood(s: State) {
    forall i :: i in s.inflight ==>
      s.inflight[i] in s.log && s.inflight[i].at <= s.now && OwnAnswer(s.inflight[i].email, s.inflight[i].answer)
  }

  ghost predicate Inv(s: State, ttl: Ttl) {
    RowsGood(s, ttl) && MissesGood(s, ttl) && FlightsGood(s)
  }

  lemma RowsGoodKept(s: State, step: Step, ttl: Ttl)
    requires RowsGood(s, ttl) && FlightsGood(s) && Enabled(s, step)
    ensures RowsGood(Next(s, step, ttl), ttl)
  {
    var s' := Next(s, step, ttl);
    forall k | k in s'.rows
      ensures k in s'.rowFrom && s'.rowFrom[k] in s'.log && GoodRow(k, s'.rows[k], s'.rowFrom[k], ttl, s'.now)
    {
      if k in s.rows && s'.rows[k] == s.rows[k] && k in s'.rowFrom && s'.rowFrom[k] == s.rowFrom[k] {
        assert GoodRow(k, s.rows[k], s.rowFrom[k], ttl, s.now);
      }
    }
  }

  lemma MissesGoodKept(s: State, step: Step, ttl: Ttl)
    requires MissesGood(s, ttl) && FlightsGood(s) && Enabled(s, step)
    ensures MissesGood(Next(s, step, ttl), ttl)
  {
  }

  lemma FlightsGoodKept(s: State, step: Step, ttl: Ttl)
    requires FlightsGood(s) && Enabled(s, step)
    ensures FlightsGood(Next(s, step, ttl))
  {
  }

  lemma InvKept(s: State, step: Step, ttl: Ttl)
    requires Inv(s, ttl) && Enabled(s, step)
    ensures Inv(Next(s, step, ttl), ttl)
  {
    RowsGoodKept(s, step, ttl);
    MissesGoodKept(s, step, ttl);
    FlightsGoodKept(s, step, ttl);
  }

  ghost predicate ValidRun(s: State, steps: seq<Step>, ttl: Ttl)
    decreases |steps|
  {
    steps == [] || (Enabled(s, steps[0]) && ValidRun(Next(s, steps[0], ttl), steps[1..], ttl))
  }

  ghost function Run(s: State, steps: seq<Step>, ttl: Ttl): State
    requires ValidRun(s, steps, ttl)
    decreases |steps|
  {
    if steps == [] then s else Run(Next(s, steps[0], ttl), steps[1..], ttl)
  }

  lemma {:induction false} InvAlways(s: State, steps: seq<Step>, ttl: Ttl)
    requires Inv(s, ttl) && ValidRun(s, steps, ttl)
    ensures Inv(Run(s, steps, ttl), ttl)
    decreases |steps|
  {
    if steps != [] {
      InvKept(s, steps[0], ttl);
      InvAlways(Next(s, steps[0], ttl), steps[1..], ttl);
    }
  }

  // ----- Freshness while sources change -----

  /** The pass of the chain behind a cache answer given now. */
  ghost predicate Justified(s: State, email: string, a: CacheAnswer, from: Answered, ttl: Ttl) {
    && from in s.log && from.email == email && from.at <= s.now
    && match a
       case Hit(h) =>
         && from.answer.Some?
         && h.fingerprint == from.answer.value.fingerprint && h.armored == from.answer.value.armored
         && h.source == from.answer.value.source && h.uidMatch == from.answer.value.uidMatch
         && h.ktState == from.answer.value.ktState
         && h.expiresAt.Some? && s.now < h.expiresAt.value
         && (from.answer.value.expiresAt.Some? ==> h.expiresAt == from.answer.value.expiresAt)
       case CachedMiss =>
         from.answer.None? && email in s.neg
         && var written := s.neg[email] - ttl.neg; from.at <= written <= s.now < written + ttl.neg
       case Nothing => true
  }

  /** At any point of any interleaving, a cached hit repeats a pass of the chain for that address and is
      served only before its recorded expiry; a cached miss repeats a pass that found nothing and was
      written back less than NegTTL ago. */
  lemma CacheAnswersAreJustified(now: int, steps: seq<Step>, ttl: Ttl, email: string,
                                 persist: Backend, valkey: Backend, a: CacheAnswer)
    requires ValidRun(Init(now), steps, ttl)
    requires var s := Run(Init(now), steps, ttl); GetAnswers(s.rows, s.neg, email, s.now, persist, valkey, a) && !a.Nothing?
    ensures exists from :: Justified(Run(Init(now), steps, ttl), email, a, from, ttl)
  {
    InvAlways(Init(now), steps, ttl);
    var s := Run(Init(now), steps, ttl);
    if a.Hit? {
      var fp :| IsNewest(s.rows, email, s.now, fp) && a == Hit(HitFromRow(email, fp, s.rows[(email, fp)]));
      var k := (email, fp);
      assert GoodRow(k, s.rows[k], s.rowFrom[k], ttl, s.now);
      assert Justified(s, email, a, s.rowFrom[k], ttl);
    } else {
      assert GoodMiss(email, s.neg[email], s.negFrom[email], ttl, s.now);
      assert Justified(s, email, a, s.negFrom[email], ttl);
    }
  }

  // ----- What was written back is served -----

  /** A hit written back answers every lookup of its address until it expires. */
  lemma WrittenHitIsServed(s: State, id: nat, valkey: Backend, ttl: Ttl, t: int, later: Backend, a: CacheAnswer)
    requires Inv(s, ttl) && id in s.inflight && s.inflight[id].answer.Some?
    requires var h := s.inflight[id].answer.value;
             t < if h.expiresAt.Some? then h.expiresAt.value else s.now + ttl.pos
    requires var s' := Next(s, WriteBack(id, Working, valkey), ttl);
             GetAnswers(s'.rows, s'.neg, s.inflight[id].email, t, Working, later, a)
    ensures a.Hit? && a.hit.email == s.inflight[id].email
  {
    var from := s.inflight[id];
    var s' := Next(s, WriteBack(id, Working, valkey), ttl);
    var k := (from.email, from.answer.value.fingerprint);
    assert k in s'.rows && s'.rows[k].expiresAt > t;
    assert k.1 in CurrentPrints(s'.rows, from.email, t);
  }

  /** A miss written back keeps the chain from being asked for NegTTL. */
  lemma WrittenMissIsServed(s: State, id: nat, ttl: Ttl, t: int, persist: Backend, later: Backend, a: CacheAnswer)
    requires id in s.inflight && s.inflight[id].answer.None? && t < s.now + ttl.neg
    requires var s' := Next(s, WriteBack(id, persist, Working), ttl);
             GetAnswers(s'.rows, s'.neg, s.inflight[id].email, t, later, Working, a)
    ensures !a.Nothing? && (!later.Working? ==> a.CachedMiss?)
  {
  }

  /** Busting an address forgets its keys, so the chain is asked again, and no other address's. */
  lemma BustForgets(s: State, email: string, ttl: Ttl, t: int, persist: Backend, valkey: Backend, a: CacheAnswer)
    requires var s' := Next(s, Bust(email), ttl); GetAnswers(s'.rows, s'.neg, email, t, persist, valkey, a)
    ensures !a.Hit?
    ensures forall k :: k in s.rows && k.0 != email ==> k in Next(s, Bust(email), ttl).rows && Next(s, Bust(email), ttl).rows[k] == s.rows[k]
  {
    assert CurrentPrints(Next(s, Bust(email), ttl).rows, email, t) == {};
  }

  // ----- Agreement when sources are fixed -----

  /** The same key, fingerprint, source, UID match and KT state, or the same not-found. */
  predicate SameOutcome(a: Option<KeyHit>, b: Option<KeyHit>) {
    && a.Some? == b.Some?
    && (a.Some? ==>
          && a.value.fingerprint == b.value.fingerprint && a.value.armored == b.value.armored
          && a.value.source == b.value.source && a.value.uidMatch == b.value.uidMatch && a.value.ktState == b.value.ktState)
  }

  /** Every pass of the chain so far had the outcome `chain` gives for its address. Fetch and expiry
      times may differ from pass to pass, as sources stamp them with the current time. */
  ghost predicate FixedChain(s: State, chain: string -> Option<KeyHit>) {
    forall a :: a in s.log ==> SameOutcome(a.answer, chain(a.email))
  }

  /** With fixed sources, every lookup in any interleaving from empty caches has the outcome of a resolver
      without a cache; `cached` is what the chain would say to the first and `plain` what it says to the
      second, each with time stamps of its own. */
  lemma CachingIsTransparent(now: int, steps: seq<Step>, ttl: Ttl, chain: string -> Option<KeyHit>, email: string,
                             local: Option<Identity>, persist: Backend, valkey: Backend, a: CacheAnswer,
                             cached: Option<KeyHit>, plain: Option<KeyHit>)
    requires ValidRun(Init(now), steps, ttl) && FixedChain(Run(Init(now), steps, ttl), chain)
    requires var s := Run(Init(now), steps, ttl); GetAnswers(s.rows, s.neg, email, s.now, persist, valkey, a)
    requires SameOutcome(cached, chain(email)) && SameOutcome(plain, chain(email))
    ensures var t := Run(Init(now), steps, ttl).now;
            SameOutcome(Resolved(email, local, a, cached, t), Uncached(email, local, plain, t))
  {
    if !a.Nothing? {
      CacheAnswersAreJustified(now, steps, ttl, email, persist, valkey, a);
      var s := Run(Init(now), steps, ttl);
      var from :| Justified(s, email, a, from, ttl);
      assert SameOutcome(from.answer, chain(from.email));
    }
  }
}
