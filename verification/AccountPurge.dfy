/** Deleting an account across several stores. Every external call may fail, with or without having
    taken effect, and a failed purge is retried later from whatever was left behind. */
module AccountPurge {
  import opened Common
  import opened Text

  const FIXED_FOLDERS: set<string> := {"inbox", "sent", "drafts", "archive", "trash"}

  /** What one user owns in each store, and the shared blob store. */
  datatype World = World(user: bool, addresses: set<string>, domains: set<string>, reserved: set<string>,
                         links: map<string, string>, outbox: map<nat, string>, staged: map<nat, string>,
                         ledger: map<nat, string>, folders: set<string>, side: Side, blobs: set<string>)

  /** The user's data in the stores outside the account rows. */
  datatype Side = Side(manifests: set<nat>, mailboxes: set<string>, flags: bool, events: bool, optIn: bool, sessions: bool)

  /** Which optional stores are configured. */
  datatype Config = Config(links: bool, meta: bool, blob: bool, scylla: bool, sessions: bool)

  datatype Outcome = Done | FailedBefore | FailedAfter

  datatype Error = UserNotFound | StoreFailure | BlobStoreRequired | ScyllaRequired

  function NormalNames(names: set<string>): set<string> {
    set n | n in names && LowerTrim(n) != "" :: LowerTrim(n)
  }

  /** Every name that is not blank is reserved, trimmed and in lower case. */
  ghost predicate Covers(reserved: set<string>, names: set<string>) {
    forall n :: n in names && LowerTrim(n) != "" ==> LowerTrim(n) in reserved
  }

  function Ref(raw: string): string {
    TrimSpace(raw)
  }

  function RefsOf<K>(rows: map<K, string>): set<string> {
    set k | k in rows && Ref(rows[k]) != "" :: Ref(rows[k])
  }

  /** The blobs a purge must delete: those named by link rows, outbox payloads and ledger bodies. */
  function Named(c: Config, w: World): set<string> {
    (if c.links then RefsOf(w.links) else {}) + (if c.meta then RefsOf(w.outbox) + RefsOf(w.ledger) else {})
  }

  /** Deleting the user row: foreign keys cascade to the user's rows and release owned domains. */
  function WithoutUser(w: World): World {
    w.(user := false, addresses := {}, domains := {}, links := map[], outbox := map[], staged := map[], ledger := map[], folders := {})
  }

  /** Foreign keys: without the user there are no rows of the user. */
  predicate WellFormed(w: World) {
    !w.user ==> w.addresses == {} && w.domains == {} && w.links == map[] && w.outbox == map[] && w.ledger == map[]
  }

  // ----- What every step keeps -----

  /** From `a` to a later `b`: nothing owned disappears unreserved, rows stay until the user goes, only
      named blobs are deleted, a link row goes only after its blob, and the user row only after all of them. */
  ghost predicate Progress(c: Config, a: World, b: World) {
    && WellFormed(a) && WellFormed(b)
    && a.reserved <= b.reserved
    && (forall x :: x in b.reserved && x !in a.reserved ==> exists n :: n in a.addresses + a.domains && LowerTrim(n) == x)
    && b.domains <= a.domains
    && (forall n :: n in a.domains && n !in b.domains && LowerTrim(n) != "" ==> LowerTrim(n) in b.reserved)
    && (b.user ==> a.user && b.addresses == a.addresses && b.outbox == a.outbox && b.ledger == a.ledger)
    && (a.user && !b.user ==>
          && (forall n :: n in a.addresses && LowerTrim(n) != "" ==> LowerTrim(n) in b.reserved)
          && Named(c, a) !! b.blobs)
    && b.blobs <= a.blobs && a.blobs - b.blobs <= Named(c, a)
    && b.links.Keys <= a.links.Keys && (forall k :: k in b.links ==> b.links[k] == a.links[k])
    && (c.links ==> forall k :: k in a.links && k !in b.links ==> Ref(a.links[k]) == "" || Ref(a.links[k]) !in b.blobs)
  }

  lemma NamedShrinks(c: Config, a: World, b: World)
    requires Progress(c, a, b)
    ensures Named(c, b) <= Named(c, a)
    ensures b.user ==> Named(c, a) * b.blobs <= Named(c, b)
  {
    assert RefsOf(b.links) <= RefsOf(a.links) by {
      forall r | r in RefsOf(b.links) ensures r in RefsOf(a.links) {
        var k :| k in b.links && Ref(b.links[k]) != "" && r == Ref(b.links[k]);
        assert k in a.links;
      }
    }
    forall r | b.user && r in Named(c, a) && r in b.blobs ensures r in Named(c, b) {
      if c.links && r in RefsOf(a.links) {
        var k :| k in a.links && Ref(a.links[k]) != "" && r == Ref(a.links[k]);
        assert k in b.links;
      }
    }
  }

  lemma ProgressRefl(c: Config, a: World)
    requires WellFormed(a)
    ensures Progress(c, a, a)
  {
    assert a.domains - a.domains == {};
  }

  /** Later steps, and later attempts, add to what earlier ones did. */
  lemma ProgressTrans(c: Config, a: World, b: World, d: World)
    requires Progress(c, a, b) && Progress(c, b, d)
    ensures Progress(c, a, d)
  {
    NamedShrinks(c, a, b);
    forall k | c.links && k in a.links && k !in d.links ensures Ref(a.links[k]) == "" || Ref(a.links[k]) !in d.blobs {
      if k in b.links {
        assert a.links[k] == b.links[k];
      }
    }
  }

  // ----- The single deletions -----

  lemma BlobStep(c: Config, w: World, key: string)
    requires WellFormed(w) && key in Named(c, w)
    ensures Progress(c, w, w.(blobs := w.blobs - {key}))
  {
    assert w.domains - w.domains == {};
  }

  lemma LinkStep(c: Config, w: World, k: string)
    requires WellFormed(w) && k in w.links && (Ref(w.links[k]) == "" || Ref(w.links[k]) !in w.blobs)
    ensures Progress(c, w, w.(links := w.links - {k}))
  {
    assert w.domains - w.domains == {};
  }

  lemma DomainStep(c: Config, w: World, d: string)
    requires WellFormed(w) && (LowerTrim(d) != "" ==> LowerTrim(d) in w.reserved)
    ensures Progress(c, w, w.(domains := w.domains - {d}))
  {
  }

  lemma ReserveStep(c: Config, w: World)
    requires WellFormed(w)
    ensures Progress(c, w, w.(reserved := w.reserved + NormalNames(w.addresses) + NormalNames(w.domains)))
  {
  }

  lemma LinkAfter(c: Config, a: World, w: World, k: string)
    requires Progress(c, a, w) && k in w.links && (Ref(w.links[k]) == "" || Ref(w.links[k]) !in w.blobs)
    ensures Progress(c, a, w.(links := w.links - {k}))
  {
    LinkStep(c, w, k);
    ProgressTrans(c, a, w, w.(links := w.links - {k}));
  }

  lemma DomainAfter(c: Config, a: World, w: World, d: string)
    requires Progress(c, a, w) && (LowerTrim(d) != "" ==> LowerTrim(d) in w.reserved)
    ensures Progress(c, a, w.(domains := w.domains - {d}))
  {
    DomainStep(c, w, d);
    ProgressTrans(c, a, w, w.(domains := w.domains - {d}));
  }

  /** Stores outside the account rows may lose anything. */
  lemma SideStep(c: Config, w: World, w': World)
    requires WellFormed(w) && w' == w.(side := w'.side)
    ensures Progress(c, w, w')
  {
    assert w.domains - w'.domains == {};
  }

  lemma UserStep(c: Config, w: World)
    requires WellFormed(w) && Named(c, w) !! w.blobs
    requires Covers(w.reserved, w.addresses) && Covers(w.reserved, w.domains)
    ensures Progress(c, w, WithoutUser(w))
  {
    assert w.domains - {} == w.domains;
    forall k | c.links && k in w.links ensures Ref(w.links[k]) == "" || Ref(w.links[k]) !in w.blobs {
      assert Ref(w.links[k]) != "" ==> Ref(w.links[k]) in RefsOf(w.links);
    }
  }

  // ----- The purge -----

  /** Nothing of the user's mailbox is left, as far as the purge can list it. */
  ghost predicate MailboxGone(c: Config, w: World) {
    c.scylla ==> FIXED_FOLDERS !! w.side.mailboxes && !w.side.flags && !w.side.events && !w.side.optIn && (c.meta ==> w.ledger.Keys !! w.side.manifests)
  }

  lemma NamedGone(c: Config, w: World)
    requires c.links ==> w.links == map[]
    requires c.meta ==> RefsOf(w.outbox) !! w.blobs && RefsOf(w.ledger) !! w.blobs
    ensures Named(c, w) !! w.blobs
  {
  }

  /** What an attempt needs of the configuration: a blob store if any blob is named, and Scylla if the
      ledger has rows. */
  ghost predicate Ready(c: Config, w: World) {
    (c.blob || Named(c, w) == {}) && (c.scylla || !c.meta || w.ledger == map[])
  }

  lemma ReadyKept(c: Config, a: World, b: World)
    requires Progress(c, a, b) && Ready(c, a)
    ensures Ready(c, b)
  {
    NamedShrinks(c, a, b);
  }

  /** Every listed blob outside `todo` is gone. */
  ghost predicate Emptied(rows: map<nat, string>, todo: set<nat>, blobs: set<string>) {
    forall k :: k in rows && k !in todo ==> Ref(rows[k]) == "" || Ref(rows[k]) !in blobs
  }

  /** Every listed reference outside `todo` is blank. */
  ghost predicate Blank<K>(rows: map<K, string>, todo: set<K>) {
    forall k :: k in rows && k !in todo ==> Ref(rows[k]) == ""
  }

  lemma BlankAll<K>(rows: map<K, string>)
    requires Blank(rows, {})
    ensures RefsOf(rows) == {}
  {
  }

  lemma EmptiedOne(rows: map<nat, string>, todo: set<nat>, k: nat, before: set<string>, after: set<string>)
    requires Emptied(rows, todo, before) && after <= before
    requires k in rows && (Ref(rows[k]) == "" || Ref(rows[k]) !in after)
    ensures Emptied(rows, todo - {k}, after)
  {
  }

  lemma EmptiedAll(rows: map<nat, string>, blobs: set<string>)
    requires Emptied(rows, {}, blobs)
    ensures RefsOf(rows) !! blobs
  {
  }

  lemma RefIsNamed(rows: map<nat, string>, k: nat)
    requires k in rows
    ensures Ref(rows[k]) != "" ==> Ref(rows[k]) in RefsOf(rows)
  {
  }

  /** `oracle(i)` is how the i-th external call goes. */
  class Purger {
    var w: World
    var calls: nat
    const cfg: Config
    const oracle: nat -> Outcome

    constructor (cfg: Config, w: World, oracle: nat -> Outcome)
      ensures this.cfg == cfg && this.w == w && this.oracle == oracle && calls == 0
    {
      this.cfg, this.w, this.oracle := cfg, w, oracle;
      calls := 0;
    }

    /** No call fails from here on. */
    ghost predicate Smooth()
      reads this`calls
    {
      forall i :: i >= calls ==> oracle(i).Done?
    }

    method Call() returns (o: Outcome)
      modifies this`calls
      ensures calls == old(calls) + 1 && o == oracle(old(calls))
    {
      o := oracle(calls);
      calls := calls + 1;
    }

    method DeleteBlobIfPresent(raw: string) returns (e: Option<Error>)
      requires WellFormed(w) && (Ref(raw) != "" ==> Ref(raw) in Named(cfg, w))
      modifies this`w, this`calls
      ensures calls >= old(calls)
      ensures Progress(cfg, old(w), w) && w == old(w).(blobs := w.blobs)
      ensures e.None? ==> Ref(raw) == "" || Ref(raw) !in w.blobs
      ensures e.None? ==> cfg.blob || Ref(raw) == ""
      ensures old(Smooth()) && (cfg.blob || Ref(raw) == "") ==> e.None?
    {
      var key := TrimSpace(raw);
      ProgressRefl(cfg, w);
      if key == "" {
        return None;
      }
      if !cfg.blob {
        return Some(BlobStoreRequired);
      }
      var o := Call();
      if !o.FailedBefore? {
        BlobStep(cfg, w, key);
        w := w.(blobs := w.blobs - {key});
      }
      return if o.Done? then None else Some(StoreFailure);
    }

    /** One link: its blob, then its row. */
    method DeleteLink(k: string) returns (e: Option<Error>)
      requires WellFormed(w) && cfg.links && k in w.links
      modifies this`w, this`calls
      ensures calls >= old(calls)
      ensures Progress(cfg, old(w), w) && w == old(w).(blobs := w.blobs, links := w.links)
      ensures e.None? ==> w.links == old(w.links) - {k}
      ensures old(Smooth()) && (cfg.blob || Named(cfg, old(w)) == {}) ==> e.None?
      ensures e.None? ==> cfg.blob || Ref(old(w.links[k])) == ""
    {
      assert Ref(w.links[k]) != "" ==> Ref(w.links[k]) in RefsOf(w.links);
      e := DeleteBlobIfPresent(w.links[k]);
      if e.Some? {
        return;
      }
      var o := Call();
      if !o.FailedBefore? {
        LinkAfter(cfg, old(w), w, k);
        w := w.(links := w.links - {k});
      }
      return if o.Done? then None else Some(StoreFailure);
    }

    method DeleteProtectedLinks() returns (e: Option<Error>)
      requires WellFormed(w)
      modifies this`w, this`calls
      ensures calls >= old(calls)
      ensures Progress(cfg, old(w), w) && w == old(w).(blobs := w.blobs, links := w.links)
      ensures e.None? && cfg.links ==> w.links == map[]
      ensures old(Smooth()) && (cfg.blob || Named(cfg, old(w)) == {}) ==> e.None?
      ensures e.None? && cfg.links ==> cfg.blob || RefsOf(old(w.links)) == {}
    {
      ProgressRefl(cfg, w);
      if !cfg.links {
        return None;
      }
      var listed := Call();
      if !listed.Done? {
        return Some(StoreFailure);
      }
      var todo := w.links.Keys;
      while todo != {}
        invariant calls >= old(calls)
        invariant Progress(cfg, old(w), w) && w == old(w).(blobs := w.blobs, links := w.links)
        invariant w.links.Keys == todo
        invariant cfg.blob || Blank(old(w.links), todo)
        decreases |todo|
      {
        var k :| k in todo;
        ghost var before := w;
        e := DeleteLink(k);
        ProgressTrans(cfg, old(w), before, w);
        if e.Some? {
          return;
        }
        todo := todo - {k};
      }
      if !cfg.blob {
        BlankAll(old(w.links));
      }
      return None;
    }

    method DeleteOutboxPayloads() returns (e: Option<Error>)
      requires WellFormed(w) && cfg.meta
      modifies this`w, this`calls
      ensures calls >= old(calls)
      ensures Progress(cfg, old(w), w) && w == old(w).(blobs := w.blobs)
      ensures e.None? ==> RefsOf(w.outbox) !! w.blobs
      ensures old(Smooth()) && (cfg.blob || Named(cfg, old(w)) == {}) ==> e.None?
      ensures e.None? ==> cfg.blob || RefsOf(w.outbox) == {}
    {
      ProgressRefl(cfg, w);
      var listed := Call();
      if !listed.Done? {
        return Some(StoreFailure);
      }
      var rows := w.outbox;
      var todo := rows.Keys;
      while todo != {}
        invariant calls >= old(calls)
        invariant Progress(cfg, old(w), w) && w == old(w).(blobs := w.blobs) && todo <= rows.Keys
        invariant cfg.blob || Blank(rows, todo)
        invariant Emptied(rows, todo, w.blobs)
        decreases |todo|
      {
        var k :| k in todo;
        RefIsNamed(rows, k);
        ghost var before := w;
        e := DeleteBlobIfPresent(rows[k]);
        ProgressTrans(cfg, old(w), before, w);
        if e.Some? {
          return;
        }
        EmptiedOne(rows, todo, k, before.blobs, w.blobs);
        todo := todo - {k};
      }
      EmptiedAll(rows, w.blobs);
      if !cfg.blob {
        BlankAll(rows);
      }
      return None;
    }

    method DeleteOwnedDomains() returns (e: Option<Error>)
      requires WellFormed(w) && Covers(w.reserved, w.domains)
      modifies this`w, this`calls
      ensures calls >= old(calls)
      ensures Progress(cfg, old(w), w) && w == old(w).(domains := w.domains)
      ensures w.domains <= old(w.domains)
      ensures e.None? ==> forall d :: d in old(w.domains) ==> LowerTrim(d) !in w.domains
      ensures old(Smooth()) ==> e.None?
    {
      ProgressRefl(cfg, w);
      var listed := Call();
      if !listed.Done? {
        return Some(StoreFailure);
      }
      var todo := w.domains;
      while todo != {}
        invariant calls >= old(calls)
        invariant Progress(cfg, old(w), w) && w == old(w).(domains := w.domains)
        invariant todo <= old(w.domains) && w.domains <= old(w.domains)
        invariant forall d :: d in old(w.domains) && d !in todo ==> LowerTrim(d) !in w.domains
        decreases |todo|
      {
        var d :| d in todo;
        var o := Call();
        if !o.FailedBefore? {
          LowerTrimIsStable(d);
          DomainAfter(cfg, old(w), w, LowerTrim(d));
          w := w.(domains := w.domains - {LowerTrim(d)});
        }
        if !o.Done? {
          return Some(StoreFailure);
        }
        todo := todo - {d};
      }
      return None;
    }

    method DeleteMessage(m: nat, raw: string) returns (e: Option<Error>)
      requires WellFormed(w) && cfg.scylla && (Ref(raw) != "" ==> Ref(raw) in Named(cfg, w))
      modifies this`w, this`calls
      ensures calls >= old(calls)
      ensures Progress(cfg, old(w), w) && w == old(w).(blobs := w.blobs, side := w.side)
      ensures w.side.manifests <= old(w.side.manifests)
      ensures e.None? ==> m !in w.side.manifests && (Ref(raw) == "" || Ref(raw) !in w.blobs)
      ensures old(Smooth()) && (cfg.blob || Ref(raw) == "") ==> e.None?
      ensures e.None? ==> cfg.blob || Ref(raw) == ""
    {
      e := DeleteBlobIfPresent(raw);
      if e.Some? {
        return;
      }
      var got := Call();
      if !got.Done? {
        return Some(StoreFailure);
      }
      if m !in w.side.manifests {
        return None;
      }
      var o := Call();
      if !o.FailedBefore? {
        SideStep(cfg, w, w.(side := w.side.(manifests := w.side.manifests - {m})));
        ProgressTrans(cfg, old(w), w, w.(side := w.side.(manifests := w.side.manifests - {m})));
        w := w.(side := w.side.(manifests := w.side.manifests - {m}));
      }
      return if o.Done? then None else Some(StoreFailure);
    }

    method DeleteLedgerBodies(rows: map<nat, string>) returns (e: Option<Error>)
      requires WellFormed(w) && cfg.scylla && RefsOf(rows) <= Named(cfg, w)
      modifies this`w, this`calls
      ensures calls >= old(calls)
      ensures Progress(cfg, old(w), w) && w == old(w).(blobs := w.blobs, side := w.side)
      ensures e.None? ==> RefsOf(rows) !! w.blobs && rows.Keys !! w.side.manifests
      ensures old(Smooth()) && (cfg.blob || RefsOf(rows) == {}) ==> e.None?
      ensures e.None? ==> cfg.blob || RefsOf(rows) == {}
    {
      ProgressRefl(cfg, w);
      var todo := rows.Keys;
      while todo != {}
        invariant calls >= old(calls)
        invariant Progress(cfg, old(w), w) && w == old(w).(blobs := w.blobs, side := w.side)
        invariant todo <= rows.Keys
        invariant cfg.blob || Blank(rows, todo)
        invariant Emptied(rows, todo, w.blobs) && (rows.Keys - todo) !! w.side.manifests
        decreases |todo|
      {
        var k :| k in todo;
        RefIsNamed(rows, k);
        ghost var before := w;
        e := DeleteMessage(k, rows[k]);
        ProgressTrans(cfg, old(w), before, w);
        if e.Some? {
          return;
        }
        EmptiedOne(rows, todo, k, before.blobs, w.blobs);
        todo := todo - {k};
      }
      EmptiedAll(rows, w.blobs);
      if !cfg.blob {
        BlankAll(rows);
      }
      return None;
    }

    method DeleteFolders(folders: set<string>) returns (e: Option<Error>)
      requires WellFormed(w)
      modifies this`w, this`calls
      ensures calls >= old(calls)
      ensures Progress(cfg, old(w), w) && w == old(w).(side := old(w).side.(mailboxes := w.side.mailboxes))
      ensures e.None? ==> folders !! w.side.mailboxes
      ensures old(Smooth()) ==> e.None?
    {
      ProgressRefl(cfg, w);
      var todo := folders;
      while todo != {}
        invariant calls >= old(calls)
        invariant Progress(cfg, old(w), w) && w == old(w).(side := old(w).side.(mailboxes := w.side.mailboxes))
        invariant todo <= folders && (folders - todo) !! w.side.mailboxes
        decreases |todo|
      {
        var f :| f in todo;
        var o := Call();
        if !o.FailedBefore? {
          SideStep(cfg, w, w.(side := w.side.(mailboxes := w.side.mailboxes - {f})));
          ProgressTrans(cfg, old(w), w, w.(side := w.side.(mailboxes := w.side.mailboxes - {f})));
          w := w.(side := w.side.(mailboxes := w.side.mailboxes - {f}));
        }
        if !o.Done? {
          return Some(StoreFailure);
        }
        todo := todo - {f};
      }
      return None;
    }

    method DeleteMarks() returns (e: Option<Error>)
      requires WellFormed(w)
      modifies this`w, this`calls
      ensures calls >= old(calls)
      ensures Progress(cfg, old(w), w) && w == old(w).(side := w.side) && w.side.manifests == old(w.side.manifests)
      ensures e.None? ==> !w.side.flags && !w.side.events && !w.side.optIn
      ensures old(Smooth()) ==> e.None?
    {
      ghost var start := w;
      ProgressRefl(cfg, w);
      var o := Call();
      if !o.FailedBefore? {
        w := w.(side := w.side.(flags := false));
      }
      if o.Done? {
        o := Call();
        if !o.FailedBefore? {
          w := w.(side := w.side.(events := false));
        }
      }
      if o.Done? {
        o := Call();
        if !o.FailedBefore? {
          w := w.(side := w.side.(optIn := false));
        }
      }
      SideStep(cfg, start, w);
      return if o.Done? then None else Some(StoreFailure);
    }

    /** A folder list that cannot be read leaves only the fixed folders. */
    method DeletePartitions() returns (e: Option<Error>)
      requires WellFormed(w)
      modifies this`w, this`calls
      ensures calls >= old(calls)
      ensures Progress(cfg, old(w), w)
      ensures w == old(w).(side := w.side) && w.side.manifests == old(w.side.manifests)
      ensures e.None? ==> FIXED_FOLDERS !! w.side.mailboxes && !w.side.flags && !w.side.events && !w.side.optIn
      ensures old(Smooth()) ==> e.None?
      ensures e.None? ==> forall f :: f in ["inbox", "sent", "drafts", "archive", "trash"] ==> f !in w.side.mailboxes
      ensures old(Smooth()) && cfg.meta ==>
                forall f :: f in old(w.folders) && LowerTrim(f) != "" ==> LowerTrim(f) !in w.side.mailboxes
    {
      e := DeleteMarks();
      if e.Some? {
        return;
      }
      var folders := FIXED_FOLDERS;
      if cfg.meta {
        var listed := Call();
        if listed.Done? {
          folders := folders + NormalNames(w.folders);
        }
      }
      ghost var marks := w;
      e := DeleteFolders(folders);
      ProgressTrans(cfg, old(w), marks, w);
    }

    /** Bodies and manifests of the ledger's messages, then the mailbox partitions. */
    method DeleteMailboxData(rows: map<nat, string>) returns (e: Option<Error>)
      requires WellFormed(w) && RefsOf(rows) <= Named(cfg, w)
      modifies this`w, this`calls
      ensures calls >= old(calls)
      ensures Progress(cfg, old(w), w)
      ensures w == old(w).(blobs := w.blobs, side := w.side)
      ensures e.None? ==> RefsOf(rows) !! w.blobs
      ensures e.None? && cfg.scylla ==> rows.Keys !! w.side.manifests && FIXED_FOLDERS !! w.side.mailboxes
                                        && !w.side.flags && !w.side.events && !w.side.optIn
      ensures old(Smooth()) && (cfg.blob || RefsOf(rows) == {}) && (cfg.scylla || rows == map[]) ==> e.None?
      ensures e.None? ==> (cfg.blob || RefsOf(rows) == {}) && (cfg.scylla || rows == map[])
    {
      ProgressRefl(cfg, w);
      if !cfg.scylla {
        assert |rows| == 0 ==> rows == map[];
        return if |rows| > 0 then Some(ScyllaRequired) else None;
      }
      e := DeleteLedgerBodies(rows);
      if e.Some? {
        return;
      }
      ghost var bodies := w;
      e := DeletePartitions();
      ProgressTrans(cfg, old(w), bodies, w);
    }

    /** Outbox payloads and owned domains; the ledger rows are read first, for the mailbox data. */
    method DeleteMetaSide() returns (e: Option<Error>, ledger: map<nat, string>)
      requires WellFormed(w) && Covers(w.reserved, w.domains) && cfg.meta
      modifies this`w, this`calls
      ensures calls >= old(calls)
      ensures Progress(cfg, old(w), w) && w == old(w).(blobs := w.blobs, domains := w.domains)
      ensures w.domains <= old(w.domains)
      ensures e.None? ==> ledger == w.ledger && RefsOf(w.outbox) !! w.blobs
      ensures old(Smooth()) && (cfg.blob || Named(cfg, old(w)) == {}) ==> e.None?
      ensures e.None? ==> cfg.blob || RefsOf(w.outbox) == {}
    {
      ProgressRefl(cfg, w);
      ledger := w.ledger;
      var listed := Call();
      if !listed.Done? {
        return Some(StoreFailure), ledger;
      }
      e := DeleteOutboxPayloads();
      if e.Some? {
        return;
      }
      ghost var payloads := w;
      e := DeleteOwnedDomains();
      ProgressTrans(cfg, old(w), payloads, w);
    }

    /** Link blobs and rows, then the mail metadata. */
    method DeleteRows() returns (e: Option<Error>, ledger: map<nat, string>)
      requires WellFormed(w) && Covers(w.reserved, w.domains)
      modifies this`w, this`calls
      ensures calls >= old(calls)
      ensures Progress(cfg, old(w), w) && w == old(w).(blobs := w.blobs, links := w.links, domains := w.domains)
      ensures w.domains <= old(w.domains)
      ensures e.None? ==> ledger == (if cfg.meta then w.ledger else map[])
      ensures e.None? && cfg.links ==> w.links == map[]
      ensures e.None? && cfg.meta ==> RefsOf(w.outbox) !! w.blobs
      ensures old(Smooth()) && (cfg.blob || Named(cfg, old(w)) == {}) ==> e.None?
      ensures e.None? && cfg.links ==> cfg.blob || RefsOf(old(w.links)) == {}
      ensures e.None? && cfg.meta ==> cfg.blob || RefsOf(w.outbox) == {}
    {
      ledger := map[];
      e := DeleteProtectedLinks();
      if e.Some? || !cfg.meta {
        return;
      }
      ghost var links := w;
      e, ledger := DeleteMetaSide();
      ProgressTrans(cfg, old(w), links, w);
    }

    /** Everything but the reservations, the sessions and the user row itself. */
    method DeleteMailSide() returns (e: Option<Error>)
      requires WellFormed(w) && Covers(w.reserved, w.domains)
      modifies this`w, this`calls
      ensures calls >= old(calls)
      ensures Progress(cfg, old(w), w)
      ensures w == old(w).(blobs := w.blobs, links := w.links, domains := w.domains, side := w.side)
      ensures w.domains <= old(w.domains)
      ensures e.None? ==> Named(cfg, w) !! w.blobs && MailboxGone(cfg, w)
      ensures e.None? ==> Ready(cfg, old(w))
      ensures old(Smooth()) && Ready(cfg, old(w)) ==> e.None?
    {
      var ledger: map<nat, string>;
      e, ledger := DeleteRows();
      if e.Some? {
        return;
      }
      ghost var rows := w;
      e := DeleteMailboxData(ledger);
      ProgressTrans(cfg, old(w), rows, w);
      if e.None? {
        NamedGone(cfg, w);
      }
    }

    /** Writes reservations for every address and domain the account still owns, in one transaction. */
    method ReserveOwned() returns (e: Option<Error>)
      requires WellFormed(w)
      modifies this`w, this`calls
      ensures calls >= old(calls)
      ensures Progress(cfg, old(w), w) && w == old(w).(reserved := w.reserved)
      ensures e.None? ==> Covers(w.reserved, w.addresses) && Covers(w.reserved, w.domains)
      ensures old(Smooth()) ==> e.None?
      ensures calls > old(calls)
    {
      ProgressRefl(cfg, w);
      var addresses := Call();
      if !addresses.Done? {
        return Some(StoreFailure);
      }
      var domains := Call();
      if !domains.Done? {
        return Some(StoreFailure);
      }
      var written := Call();
      if !written.FailedBefore? {
        ReserveStep(cfg, w);
        w := w.(reserved := w.reserved + NormalNames(w.addresses) + NormalNames(w.domains));
      }
      return if written.Done? then None else Some(StoreFailure);
    }

    method DeleteSessions() returns (e: Option<Error>)
      requires WellFormed(w)
      modifies this`w, this`calls
      ensures calls >= old(calls)
      ensures Progress(cfg, old(w), w) && w == old(w).(side := old(w).side.(sessions := w.side.sessions))
      ensures e.None? && cfg.sessions ==> !w.side.sessions
      ensures old(Smooth()) ==> e.None?
    {
      ProgressRefl(cfg, w);
      if !cfg.sessions {
        return None;
      }
      var o := Call();
      if !o.FailedBefore? {
        SideStep(cfg, w, w.(side := w.side.(sessions := false)));
        w := w.(side := w.side.(sessions := false));
      }
      return if o.Done? then None else Some(StoreFailure);
    }

    method DeleteUser() returns (r: Result<(), Error>)
      requires WellFormed(w) && Named(cfg, w) !! w.blobs
      requires Covers(w.reserved, w.addresses) && Covers(w.reserved, w.domains)
      modifies this`w, this`calls
      ensures calls >= old(calls)
      ensures Progress(cfg, old(w), w)
      ensures w == old(w) || (old(w.user) && w == WithoutUser(old(w)))
      ensures r.Ok? ==> old(w.user) && !w.user
      ensures r.Err? && old(w.user) && !w.user ==> calls > 0 && oracle(calls - 1).FailedAfter?
      ensures old(Smooth()) && old(w.user) ==> r.Ok?
    {
      ProgressRefl(cfg, w);
      UserStep(cfg, w);
      var gone := Call();
      if !w.user {
        return if gone.Done? then Err(UserNotFound) else Err(StoreFailure);
      }
      if !gone.FailedBefore? {
        w := WithoutUser(w);
      }
      return if gone.Done? then Ok(()) else Err(StoreFailure);
    }

    /** All steps before the user row goes. */
    method EmptyStores() returns (e: Option<Error>)
      requires WellFormed(w)
      modifies this`w, this`calls
      ensures calls >= old(calls)
      ensures Progress(cfg, old(w), w) && w.user == old(w.user) && w.ledger == old(w.ledger)
      ensures e.None? ==> Named(cfg, w) !! w.blobs && MailboxGone(cfg, w) && (cfg.sessions ==> !w.side.sessions)
                          && Covers(w.reserved, w.addresses) && Covers(w.reserved, w.domains)
      ensures old(Smooth()) && Ready(cfg, old(w)) ==> e.None?
      ensures calls > old(calls)
      ensures e.None? ==> Ready(cfg, old(w))
    {
      e := ReserveOwned();
      if e.Some? {
        return;
      }
      ghost var reserved := w;
      assert Ready(cfg, w) == Ready(cfg, old(w));
      e := DeleteMailSide();
      ProgressTrans(cfg, old(w), reserved, w);
      if e.Some? {
        return;
      }
      ghost var mail := w;
      e := DeleteSessions();
      ProgressTrans(cfg, old(w), mail, w);
    }

    /** purgeUserAccount: reserve every address and domain, empty the stores, then delete the user row. */
    method PurgeUserAccount() returns (r: Result<(), Error>)
      requires WellFormed(w)
      modifies this`w, this`calls
      ensures calls >= old(calls)
      ensures Progress(cfg, old(w), w)
      ensures r.Ok? ==> old(w.user) && !w.user && w.blobs == old(w.blobs) - Named(cfg, old(w))
                        && (forall n :: n in old(w.addresses) + old(w.domains) && LowerTrim(n) != "" ==> LowerTrim(n) in w.reserved)
      ensures r.Ok? && cfg.scylla ==> FIXED_FOLDERS !! w.side.mailboxes && !w.side.flags && !w.side.events && !w.side.optIn
                                      && (cfg.meta ==> old(w.ledger.Keys) !! w.side.manifests)
      ensures r.Ok? && cfg.sessions ==> !w.side.sessions
      ensures r.Err? && old(w.user) && !w.user ==> calls > 0 && oracle(calls - 1).FailedAfter?
      ensures old(Smooth()) && old(w.user) && Ready(cfg, old(w)) ==> r.Ok?
      ensures calls > old(calls)
      ensures r.Ok? ==> Ready(cfg, old(w))
      ensures forall x :: x in w.reserved && x !in old(w.reserved) ==>
                exists n :: n in old(w.addresses) + old(w.domains) && LowerTrim(n) == x
    {
      var e := EmptyStores();
      if e.Some? {
        return Err(e.value);
      }
      ghost var empty := w;
      r := DeleteUser();
      ProgressTrans(cfg, old(w), empty, w);
      if r.Ok? {
        FinalReservations(cfg, old(w), w);
      }
    }

    /** Retrying until an attempt succeeds or none are left. However the attempts fail, the whole run is
        still one Progress: no domain or user row goes unreserved, and the user row goes last. If failures
        stop after `steady` calls, more than `steady` attempts are enough to remove the user. */
    method PurgeWithRetries(attempts: nat, ghost steady: nat) returns (ok: bool)
      requires WellFormed(w)
      modifies this`w, this`calls
      ensures Progress(cfg, old(w), w)
      ensures ok ==> old(w.user) && !w.user && w.blobs == old(w.blobs) - Named(cfg, old(w))
                     && (forall n :: n in old(w.addresses) + old(w.domains) && LowerTrim(n) != "" ==> LowerTrim(n) in w.reserved)
      ensures attempts > steady && Ready(cfg, old(w)) && (forall i :: i >= steady ==> oracle(i).Done?) ==> !w.user
      ensures forall x :: x in w.reserved && x !in old(w.reserved) ==>
                exists n :: n in old(w.addresses) + old(w.domains) && LowerTrim(n) == x
    {
      ProgressRefl(cfg, w);
      for i := 0 to attempts
        invariant Progress(cfg, old(w), w) && calls >= i
        invariant i > steady && Ready(cfg, old(w)) && (forall i :: i >= steady ==> oracle(i).Done?) ==> !w.user
      {
        ghost var before := w;
        if Ready(cfg, old(w)) {
          ReadyKept(cfg, old(w), w);
        }
        var r := PurgeUserAccount();
        ProgressTrans(cfg, old(w), before, w);
        if r.Ok? {
          FinalReservations(cfg, old(w), w);
          return true;
        }
      }
      return false;
    }
  }

  /** Once the user row is gone everything the account owned is reserved. */
  lemma FinalReservations(c: Config, a: World, b: World)
    requires Progress(c, a, b) && a.user && !b.user
    ensures forall n :: n in a.addresses + a.domains && LowerTrim(n) != "" ==> LowerTrim(n) in b.reserved
    ensures b.blobs == a.blobs - Named(c, a)
  {
  }

  /** A finished purge leaves, of the staged sent-copy blobs, exactly those that no link, outbox payload or
      ledger row names. */
  lemma StagedCopiesSurvive(c: Config, a: World, b: World)
    requires Progress(c, a, b) && a.user && !b.user
    ensures RefsOf(a.staged) * b.blobs == RefsOf(a.staged) * a.blobs - Named(c, a)
  {
    FinalReservations(c, a, b);
  }
}
