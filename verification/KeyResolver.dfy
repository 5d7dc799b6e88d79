/** The key resolver: a chain of key sources behind a persistent positive cache and an
    expiring negative cache. Sources are abstract; `answer` gives what each says now. */
module KeyResolver {
  import opened Common
  import opened Text

  const WEEK: int := 7 * 24 * 3600 * 1_000_000

  /** `expiresAt` is None where the Go time is zero. */
  datatype KeyHit = KeyHit(email: string, fingerprint: string, armored: string, source: string, fetchedAt: int,
                           expiresAt: Option<int>, uidMatch: bool, ktState: string, addressKeysVerified: bool)

  /** One contact_pgp_keys row; its email and fingerprint are the key. */
  datatype Row = Row(armored: string, source: string, fetchedAt: int, expiresAt: int, uidMatch: bool, ktState: string)

  /** What a lookup promises about a key: everything but its times and the address-key flag. */
  datatype Core = Core(fingerprint: string, armored: string, source: string, uidMatch: bool, ktState: string)

  datatype Source = Proton(name: string) | Wkd(name: string) | Hkp(name: string)

  datatype Identity = Identity(fingerprint: string, armored: string)

  /** How a backing store behaves during one call. */
  datatype Backend = Absent | Failing | Working

  datatype CacheAnswer = Hit(hit: KeyHit) | CachedMiss | Nothing

  type Key = (string, string)

  function CoreOf(h: KeyHit): Core {
    Core(h.fingerprint, h.armored, h.source, h.uidMatch, h.ktState)
  }

  function RowCore(fp: string, r: Row): Core {
    Core(fp, r.armored, r.source, r.uidMatch, r.ktState)
  }

  // ----- The cache -----

  predicate Current(rows: map<Key, Row>, email: string, now: int, fp: string) {
    (email, fp) in rows && rows[(email, fp)].expiresAt > now
  }

  /** The row ORDER BY fetched_at DESC LIMIT 1 may return among the unexpired rows of an email. */
  ghost predicate IsNewest(rows: map<Key, Row>, email: string, now: int, fp: string) {
    && Current(rows, email, now, fp)
    && forall other :: Current(rows, email, now, other) ==>
         rows[(email, other)].fetchedAt <= rows[(email, fp)].fetchedAt
  }

  function CurrentPrints(rows: map<Key, Row>, email: string, now: int): set<string> {
    set k | k in rows && k.0 == email && rows[k].expiresAt > now :: k.1
  }

  lemma {:induction false} NewestExists(rows: map<Key, Row>, email: string, fps: set<string>)
    requires fps != {} && forall fp :: fp in fps ==> (email, fp) in rows
    ensures exists m :: m in fps && forall fp :: fp in fps ==> rows[(email, fp)].fetchedAt <= rows[(email, m)].fetchedAt
    decreases |fps|
  {
    var x :| x in fps;
    if fps != {x} {
      var rest := fps - {x};
      NewestExists(rows, email, rest);
      var m :| m in rest && forall fp :: fp in rest ==> rows[(email, fp)].fetchedAt <= rows[(email, m)].fetchedAt;
      var best := if rows[(email, x)].fetchedAt <= rows[(email, m)].fetchedAt then m else x;
      assert forall fp :: fp in fps ==> fp == x || fp in rest;
      assert best in fps && forall fp :: fp in fps ==> rows[(email, fp)].fetchedAt <= rows[(email, best)].fetchedAt;
    }
  }

  function HitFromRow(email: string, fp: string, r: Row): KeyHit {
    KeyHit(email, fp, r.armored, r.source, r.fetchedAt, Some(r.expiresAt), r.uidMatch, r.ktState, false)
  }

  function RowFromHit(h: KeyHit, posTtl: int, now: int): Row {
    Row(h.armored, h.source, now, if h.expiresAt.Some? then h.expiresAt.value else now + posTtl, h.uidMatch, h.ktState)
  }

  /** What Get may answer from a given state. */
  ghost predicate GetAnswers(rows: map<Key, Row>, neg: map<string, int>, email: string, now: int,
                             persist: Backend, valkey: Backend, a: CacheAnswer) {
    if persist.Working? && CurrentPrints(rows, email, now) != {} then
      exists fp :: IsNewest(rows, email, now, fp) && a == Hit(HitFromRow(email, fp, rows[(email, fp)]))
    else if valkey.Working? && email in neg && now < neg[email] then a == CachedMiss
    else a == Nothing
  }

  lemma AnswerExists(rows: map<Key, Row>, neg: map<string, int>, email: string, now: int, persist: Backend, valkey: Backend)
    ensures exists a :: GetAnswers(rows, neg, email, now, persist, valkey, a)
  {
    var fps := CurrentPrints(rows, email, now);
    if persist.Working? && fps != {} {
      NewestExists(rows, email, fps);
      var fp :| fp in fps && forall other :: other in fps ==> rows[(email, other)].fetchedAt <= rows[(email, fp)].fetchedAt;
      NewestIsNewest(rows, email, now, fp);
      assert GetAnswers(rows, neg, email, now, persist, valkey, Hit(HitFromRow(email, fp, rows[(email, fp)])));
    } else if valkey.Working? && email in neg && now < neg[email] {
      assert GetAnswers(rows, neg, email, now, persist, valkey, CachedMiss);
    } else {
      assert GetAnswers(rows, neg, email, now, persist, valkey, Nothing);
    }
  }

  lemma NewestIsNewest(rows: map<Key, Row>, email: string, now: int, fp: string)
    requires fp in CurrentPrints(rows, email, now)
    requires forall other :: other in CurrentPrints(rows, email, now) ==>
               rows[(email, other)].fetchedAt <= rows[(email, fp)].fetchedAt
    ensures IsNewest(rows, email, now, fp)
  {
    forall other | Current(rows, email, now, other) ensures other in CurrentPrints(rows, email, now) {
      assert (email, other) in rows;
    }
  }

  lemma NoneCurrent(rows: map<Key, Row>, email: string, now: int)
    requires CurrentPrints(rows, email, now) == {}
    ensures forall fp :: (email, fp) in rows ==> rows[(email, fp)].expiresAt <= now
  {
    forall fp | (email, fp) in rows && rows[(email, fp)].expiresAt > now ensures fp in CurrentPrints(rows, email, now) {
    }
  }

  class Cache {
    var rows: map<Key, Row>
    var neg: map<string, int>
    const negTtl: int
    const posTtl: int

    constructor (negTtl: int, posTtl: int)
      ensures rows == map[] && neg == map[] && this.negTtl == negTtl && this.posTtl == posTtl
    {
      rows, neg := map[], map[];
      this.negTtl, this.posTtl := negTtl, posTtl;
    }

    method Get(rawEmail: string, now: int, persist: Backend, valkey: Backend) returns (a: CacheAnswer)
      ensures GetAnswers(rows, neg, LowerTrim(rawEmail), now, persist, valkey, a)
      ensures var email := LowerTrim(rawEmail);
              && (a.Hit? <==> persist.Working? && exists fp :: (email, fp) in rows && rows[(email, fp)].expiresAt > now)
              && (a.CachedMiss? <==> !a.Hit? && valkey.Working? && email in neg && now < neg[email])
      ensures a.Hit? ==>
                var h, k := a.hit, (LowerTrim(rawEmail), a.hit.fingerprint);
                && h.email == k.0 && k in rows && rows[k].expiresAt > now
                && h.armored == rows[k].armored && h.source == rows[k].source && h.fetchedAt == rows[k].fetchedAt
                && h.expiresAt == Some(rows[k].expiresAt) && h.uidMatch == rows[k].uidMatch && h.ktState == rows[k].ktState
                && forall fp :: (k.0, fp) in rows && rows[(k.0, fp)].expiresAt > now ==> rows[(k.0, fp)].fetchedAt <= h.fetchedAt
    {
      var email := LowerTrim(rawEmail);
      if persist.Working? {
        var fps := CurrentPrints(rows, email, now);
        if fps != {} {
          NewestExists(rows, email, fps);
          var fp :| fp in fps && forall other :: other in fps ==> rows[(email, other)].fetchedAt <= rows[(email, fp)].fetchedAt;
          NewestIsNewest(rows, email, now, fp);
          return Hit(HitFromRow(email, fp, rows[(email, fp)]));
        }
        NoneCurrent(rows, email, now);
      }
      if valkey.Working? && email in neg && now < neg[email] {
        return CachedMiss;
      }
      return Nothing;
    }

    /** A failing persistent store leaves both caches as they were. */
    method Put(h: KeyHit, now: int, persist: Backend, valkey: Backend) returns (ok: bool)
      modifies this
      ensures ok == !persist.Failing?
      ensures rows == if persist.Working? then old(rows)[(LowerTrim(h.email), h.fingerprint) := RowFromHit(h, posTtl, now)]
                      else old(rows)
      ensures neg == if ok && valkey.Working? then old(neg) - {LowerTrim(h.email)} else old(neg)
      ensures persist.Working? ==>
                var k := (LowerTrim(h.email), h.fingerprint);
                && k in rows && rows[k].armored == h.armored && rows[k].source == h.source && rows[k].fetchedAt == now
                && rows[k].uidMatch == h.uidMatch && rows[k].ktState == h.ktState
                && (h.expiresAt.Some? ==> rows[k].expiresAt == h.expiresAt.value)
                && (h.expiresAt.None? ==> rows[k].expiresAt == now + posTtl)
    {
      var email := LowerTrim(h.email);
      if persist.Failing? {
        return false;
      }
      if persist.Working? {
        rows := rows[(email, h.fingerprint) := RowFromHit(h, posTtl, now)];
      }
      if valkey.Working? {
        neg := neg - {email};
      }
      return true;
    }

    method PutMiss(rawEmail: string, now: int, valkey: Backend)
      modifies this`neg
      ensures neg == if valkey.Working? then old(neg)[LowerTrim(rawEmail) := now + negTtl] else old(neg)
      ensures var email := LowerTrim(rawEmail);
              forall t, a :: valkey.Working? && GetAnswers(map[], neg, email, t, Absent, Working, a) ==>
                (a.CachedMiss? <==> t < now + negTtl)
      ensures forall e :: e in old(neg) && e != LowerTrim(rawEmail) ==> e in neg && neg[e] == old(neg)[e]
    {
      if valkey.Working? {
        neg := neg[LowerTrim(rawEmail) := now + negTtl];
      }
    }
  }

  // ----- The chain -----

  function Listed(s: Option<Source>): seq<Source> {
    if s.Some? then [s.value] else []
  }

  function NonNil(sources: seq<Option<Source>>): seq<Source> {
    if sources == [] then [] else Listed(sources[0]) + NonNil(sources[1..])
  }

  /** The first answer along a chain. */
  function FirstAnswer(chain: seq<Source>, email: string, answer: (Source, string) -> Option<KeyHit>): Option<KeyHit> {
    if chain == [] then None
    else if answer(chain[0], email).Some? then answer(chain[0], email)
    else FirstAnswer(chain[1..], email, answer)
  }

  function FirstProton(chain: seq<Source>): (i: nat)
    ensures i <= |chain| && (i < |chain| ==> chain[i].Proton?)
    ensures forall j :: 0 <= j < i ==> !chain[j].Proton?
  {
    if chain == [] || chain[0].Proton? then 0 else 1 + FirstProton(chain[1..])
  }

  /** The first Proton source moved to the front, everything else in its order. */
  function Promoted(chain: seq<Source>): seq<Source> {
    var i := FirstProton(chain);
    if i == |chain| then chain else [chain[i]] + chain[..i] + chain[i + 1..]
  }

  lemma {:induction false} NonNilSnoc(sources: seq<Option<Source>>, s: Option<Source>)
    ensures NonNil(sources + [s]) == NonNil(sources) + Listed(s)
  {
    if sources == [] {
      assert sources + [s] == [s] && [s][1..] == [];
      assert Listed(s) + [] == [] + Listed(s);
    } else {
      assert (sources + [s])[1..] == sources[1..] + [s];
      NonNilSnoc(sources[1..], s);
      var a, b, c := Listed(sources[0]), NonNil(sources[1..]), Listed(s);
      assert a + (b + c) == (a + b) + c;
    }
  }

  lemma {:induction false} FirstProtonSnoc(chain: seq<Source>, s: Source)
    ensures FirstProton(chain + [s]) ==
            if FirstProton(chain) < |chain| then FirstProton(chain) else if s.Proton? then |chain| else |chain| + 1
  {
    if chain == [] {
      assert chain + [s] == [s] && [s][1..] == [];
    } else {
      assert (chain + [s])[1..] == chain[1..] + [s];
      FirstProtonSnoc(chain[1..], s);
    }
  }

  /** The source set aside so far, and the others. */
  function SetAside(seen: seq<Source>): Option<Source> {
    var p := FirstProton(seen);
    if p == |seen| then None else Some(seen[p])
  }

  function Others(seen: seq<Source>): seq<Source> {
    var p := FirstProton(seen);
    if p == |seen| then seen else seen[..p] + seen[p + 1..]
  }

  lemma SetAsideSnoc(seen: seq<Source>, s: Source)
    ensures var first := s.Proton? && SetAside(seen).None?;
            && SetAside(seen + [s]) == (if first then Some(s) else SetAside(seen))
            && Others(seen + [s]) == (if first then Others(seen) else Others(seen) + [s])
  {
    FirstProtonSnoc(seen, s);
    var p := FirstProton(seen);
    if p < |seen| {
      assert (seen + [s])[p + 1..] == seen[p + 1..] + [s];
      assert (seen + [s])[..p] == seen[..p];
    } else if s.Proton? {
      assert (seen + [s])[..p] == seen && (seen + [s])[p + 1..] == [];
    }
  }

  lemma PromotedParts(chain: seq<Source>)
    ensures Promoted(chain) == Listed(SetAside(chain)) + Others(chain)
  {
    var i := FirstProton(chain);
    if i < |chain| {
      assert [chain[i]] + (chain[..i] + chain[i + 1..]) == [chain[i]] + chain[..i] + chain[i + 1..];
    } else {
      assert [] + chain == chain;
    }
  }

  method PromoteProton(sources: seq<Option<Source>>) returns (out: seq<Source>)
    ensures out == Promoted(NonNil(sources))
  {
    out := [];
    var proton: Option<Source> := None;
    ghost var seen: seq<Source> := [];
    for i := 0 to |sources|
      invariant seen == NonNil(sources[..i])
      invariant proton == SetAside(seen) && out == Others(seen)
    {
      assert sources[..i + 1] == sources[..i] + [sources[i]];
      NonNilSnoc(sources[..i], sources[i]);
      if sources[i].None? {
        assert seen + [] == seen;
        continue;
      }
      var s := sources[i].value;
      SetAsideSnoc(seen, s);
      seen := seen + [s];
      if s.Proton? && proton.None? {
        proton := Some(s);
        continue;
      }
      out := out + [s];
    }
    assert sources[..|sources|] == sources;
    PromotedParts(seen);
    if proton.Some? {
      out := [proton.value] + out;
    } else {
      assert [] + out == out;
    }
  }

  lemma PromotedIsPermutation(chain: seq<Source>)
    ensures multiset(Promoted(chain)) == multiset(chain)
  {
    var i := FirstProton(chain);
    if i < |chain| {
      assert chain == chain[..i] + [chain[i]] + chain[i + 1..];
    }
  }

  lemma {:induction false} FirstAnswerAppend(a: seq<Source>, b: seq<Source>, email: string, answer: (Source, string) -> Option<KeyHit>)
    ensures FirstAnswer(a + b, email, answer) ==
            if FirstAnswer(a, email, answer).Some? then FirstAnswer(a, email, answer) else FirstAnswer(b, email, answer)
  {
    if a == [] {
      assert a + b == b;
    } else {
      assert (a + b)[1..] == a[1..] + b;
      FirstAnswerAppend(a[1..], b, email, answer);
    }
  }

  /** Along the promoted chain the first Proton source answers if it can; otherwise the first success in
      the declared order does. */
  lemma PromotedAnswer(chain: seq<Source>, email: string, answer: (Source, string) -> Option<KeyHit>)
    ensures var i := FirstProton(chain);
            FirstAnswer(Promoted(chain), email, answer) ==
            if i < |chain| && answer(chain[i], email).Some? then answer(chain[i], email)
            else FirstAnswer(chain, email, answer)
  {
    var i := FirstProton(chain);
    if i < |chain| {
      var front, p, back := chain[..i], [chain[i]], chain[i + 1..];
      assert p[1..] == [];
      FirstAnswerAppend(p + front, back, email, answer);
      FirstAnswerAppend(p, front, email, answer);
      assert chain == (front + p) + back;
      FirstAnswerAppend(front + p, back, email, answer);
      FirstAnswerAppend(front, p, email, answer);
    }
  }

  // ----- Lookup -----

  function SplitEmail(email: string): (string, string) {
    var e := LowerTrim(email);
    var at := LastAt(e);
    if at <= 0 || at == |e| - 1 then ("", "") else (e[..at], e[at + 1..])
  }

  function LastAt(s: string): (r: int)
    ensures -1 <= r < |s|
  {
    if s == "" then -1 else if s[|s| - 1] == '@' then |s| - 1 else LastAt(s[..|s| - 1])
  }

  predicate IsProtonDomain(domain: string) {
    LowerTrim(domain) == "proton.me" || LowerTrim(domain) == "protonmail.com"
    || LowerTrim(domain) == "protonmail.ch" || LowerTrim(domain) == "pm.me"
  }

  function ChainFor(sources: seq<Option<Source>>, boost: bool, email: string): seq<Source> {
    if boost && IsProtonDomain(SplitEmail(email).1) then Promoted(NonNil(sources)) else NonNil(sources)
  }

  /** The domains whose keys Proton is asked for first. */
  const PROTON_DOMAINS: set<string> := {"proton.me", "protonmail.com", "protonmail.ch", "pm.me"}

  /** `i` is where the last @ of the address stands. */
  predicate LastAtIs(email: string, i: nat) {
    i < |email| && email[i] == '@' && forall j :: i < j < |email| ==> email[j] != '@'
  }

  lemma {:induction false} LastAtFinds(s: string, i: nat)
    requires LastAtIs(s, i)
    ensures LastAt(s) == i
  {
    if i < |s| - 1 {
      LastAtFinds(s[..|s| - 1], i);
    }
  }

  lemma {:induction false} LastAtNone(s: string)
    requires '@' !in s
    ensures LastAt(s) == -1
  {
    if s != "" {
      LastAtNone(s[..|s| - 1]);
    }
  }

  /** The Proton source is promoted exactly for an address whose part after the last @ is, trimmed, one of
      Proton's domains, and only where there is something on both sides of that @. */
  lemma ProtonChain(sources: seq<Option<Source>>, boost: bool, email: string, i: nat)
    requires LowerTrim(email) == email && LastAtIs(email, i)
    ensures ChainFor(sources, boost, email) ==
            if boost && 0 < i < |email| - 1 && LowerTrim(email[i + 1..]) in PROTON_DOMAINS
            then Promoted(NonNil(sources)) else NonNil(sources)
  {
    DomainOf(email, i);
    KnownDomain(SplitEmail(email).1);
    BlankIsNotProton();
  }

  lemma DomainOf(email: string, i: nat)
    requires LowerTrim(email) == email && LastAtIs(email, i)
    ensures SplitEmail(email).1 == if 0 < i < |email| - 1 then email[i + 1..] else ""
  {
    LastAtFinds(email, i);
  }

  lemma KnownDomain(d: string)
    ensures IsProtonDomain(d) <==> LowerTrim(d) in PROTON_DOMAINS
  {
  }

  lemma BlankIsNotProton()
    ensures !IsProtonDomain("")
  {
    assert LowerTrim("") == "";
  }

  lemma NoAtNoProton(sources: seq<Option<Source>>, boost: bool, email: string)
    requires LowerTrim(email) == email && '@' !in email
    ensures ChainFor(sources, boost, email) == NonNil(sources)
  {
    LastAtNone(email);
    BlankIsNotProton();
  }

  /** A lookup that the cache cannot answer: for a Proton address the first Proton source's answer if it has
      one, and otherwise, as for every other address, the first success in declared order. */
  lemma ProtonAnswersFirst(sources: seq<Option<Source>>, boost: bool, email: string, i: nat,
                           answer: (Source, string) -> Option<KeyHit>, now: int)
    requires LowerTrim(email) == email && LastAtIs(email, i)
    ensures var declared := NonNil(sources);
            var p := FirstProton(declared);
            Resolved(email, None, Nothing, FirstAnswer(ChainFor(sources, boost, email), email, answer), now) ==
            if boost && 0 < i < |email| - 1 && LowerTrim(email[i + 1..]) in PROTON_DOMAINS
               && p < |declared| && answer(declared[p], email).Some?
            then answer(declared[p], email) else FirstAnswer(declared, email, answer)
  {
    ProtonChain(sources, boost, email, i);
    PromotedAnswer(NonNil(sources), email, answer);
  }

  function LocalHit(email: string, id: Identity, now: int): KeyHit {
    KeyHit(email, id.fingerprint, id.armored, "local", now, Some(now + WEEK), true, "", false)
  }

  /** The lookup of a resolver without a cache. */
  function Uncached(email: string, local: Option<Identity>, chain: Option<KeyHit>, now: int): Option<KeyHit> {
    if email == "" then None else if local.Some? then Some(LocalHit(email, local.value, now)) else chain
  }

  /** The lookup given what the cache said; the chain is asked only when the cache said nothing. */
  function Resolved(email: string, local: Option<Identity>, cached: CacheAnswer, chain: Option<KeyHit>, now: int): Option<KeyHit> {
    if email == "" then None
    else if local.Some? then Some(LocalHit(email, local.value, now))
    else match cached
      case Hit(h) => Some(h)
      case CachedMiss => None
      case Nothing => chain
  }

  class Resolver {
    const sources: seq<Option<Source>>
    const boost: bool
    const cache: Cache

    constructor (sources: seq<Option<Source>>, boost: bool, cache: Cache)
      ensures this.sources == sources && this.boost == boost && this.cache == cache
    {
      this.sources, this.boost, this.cache := sources, boost, cache;
    }

    /** One lookup taken at one instant; None is ErrNotFound. */
    method Lookup(rawEmail: string, local: Option<Identity>, answer: (Source, string) -> Option<KeyHit>, now: int,
                  persist: Backend, valkey: Backend) returns (r: Option<KeyHit>)
      modifies cache
      ensures var email := LowerTrim(rawEmail);
              var chain := FirstAnswer(ChainFor(sources, boost, email), email, answer);
              exists a :: GetAnswers(old(cache.rows), old(cache.neg), email, now, persist, valkey, a)
                && r == Resolved(email, local, a, chain, now)
                && (if email == "" || local.Some? || !a.Nothing? then
                      cache.rows == old(cache.rows) && cache.neg == old(cache.neg)
                    else
                      && cache.rows == RowsAfter(old(cache.rows), chain, cache.posTtl, now, persist)
                      && cache.neg == NegAfter(old(cache.neg), email, chain, cache.negTtl, now, persist, valkey))
      ensures LowerTrim(rawEmail) != "" && local.Some? ==>
                && r.Some? && r.value.email == LowerTrim(rawEmail) && r.value.source == "local"
                && r.value.fingerprint == local.value.fingerprint && r.value.armored == local.value.armored
                && r.value.fetchedAt == now && r.value.expiresAt == Some(now + 604_800_000_000)
                && r.value.uidMatch && r.value.ktState == ""
    {
      var email := LowerTrim(rawEmail);
      LowerTrimIsStable(rawEmail);
      AnswerExists(cache.rows, cache.neg, email, now, persist, valkey);
      if email == "" {
        return None;
      }
      if local.Some? {
        return Some(LocalHit(email, local.value, now));
      }
      var cached := cache.Get(email, now, persist, valkey);
      match cached {
        case Hit(h) => return Some(h);
        case CachedMiss => return None;
        case Nothing =>
          var chain := NonNil(sources);
          if boost && IsProtonDomain(SplitEmail(email).1) {
            chain := PromoteProton(sources);
          }
          r := AskChain(chain, email, answer, now, persist, valkey);
      }
    }

    /** Asks the sources in turn and records the outcome. */
    method AskChain(chain: seq<Source>, email: string, answer: (Source, string) -> Option<KeyHit>, now: int,
                    persist: Backend, valkey: Backend) returns (r: Option<KeyHit>)
      requires LowerTrim(email) == email
      modifies cache
      ensures r == FirstAnswer(chain, email, answer)
      ensures cache.rows == RowsAfter(old(cache.rows), r, cache.posTtl, now, persist)
      ensures cache.neg == NegAfter(old(cache.neg), email, r, cache.negTtl, now, persist, valkey)
    {
      for i := 0 to |chain|
        invariant FirstAnswer(chain, email, answer) == FirstAnswer(chain[i..], email, answer)
        invariant cache.rows == old(cache.rows) && cache.neg == old(cache.neg)
      {
        var hit := answer(chain[i], email);
        assert chain[i..][1..] == chain[i + 1..];
        if hit.Some? {
          var _ := cache.Put(hit.value, now, persist, valkey);
          return hit;
        }
      }
      cache.PutMiss(email, now, valkey);
      return None;
    }
  }

  function RowsAfter(rows: map<Key, Row>, chain: Option<KeyHit>, posTtl: int, now: int, persist: Backend): map<Key, Row> {
    if chain.Some? && persist.Working?
    then rows[(LowerTrim(chain.value.email), chain.value.fingerprint) := RowFromHit(chain.value, posTtl, now)]
    else rows
  }

  function NegAfter(neg: map<string, int>, email: string, chain: Option<KeyHit>, negTtl: int, now: int,
                    persist: Backend, valkey: Backend): map<string, int> {
    if !valkey.Working? then neg
    else if chain.None? then neg[email := now + negTtl]
    else if persist.Failing? then neg
    else neg - {LowerTrim(chain.value.email)}
  }
}
