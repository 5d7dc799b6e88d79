/** The in-process table of one-shot SRP challenges, with expiry and opportunistic pruning. */
module SrpChallenges {
  import opened Common

  const TTL: int := 5 * 60 * 1_000_000

  datatype Challenge = Challenge(purpose: string, userId: string, expectedProof: string, serverProof: string,
                                 createdAt: int, dummy: bool)

  type Table = map<string, Challenge>

  predicate Expired(ch: Challenge, now: int) {
    now - ch.createdAt > TTL
  }

  /** Whether a challenge taken now for `purpose` is accepted; an empty purpose accepts any. */
  predicate Accepts(ch: Challenge, purpose: string, now: int) {
    (purpose == "" || ch.purpose == purpose) && !Expired(ch, now)
  }

  function Pruned(t: Table, now: int): Table {
    map id | id in t && !Expired(t[id], now) :: t[id]
  }

  class ChallengeTable {
    var table: Table

    constructor ()
      ensures table == map[]
    {
      table := map[];
    }

    /** `id` is the freshly drawn challenge id. */
    method Issue(id: string, ch: Challenge, now: int)
      modifies this
      ensures table == Pruned(old(table), now)[id := ch.(createdAt := now)]
      ensures id in table && table[id] == ch.(createdAt := now)
      ensures forall k :: k in old(table) && k != id ==>
                (k in table <==> now <= old(table)[k].createdAt + 300_000_000) && (k in table ==> table[k] == old(table)[k])
    {
      var todo := table.Keys;
      while todo != {}
        invariant todo <= table.Keys <= old(table.Keys)
        invariant forall k :: k in table ==> table[k] == old(table)[k] && (k in todo || !Expired(table[k], now))
        invariant forall k :: k in old(table) && !Expired(old(table)[k], now) ==> k in table
        decreases |todo|
      {
        var k :| k in todo;
        todo := todo - {k};
        if Expired(table[k], now) {
          table := table - {k};
        }
      }
      assert table == Pruned(old(table), now);
      table := table[id := ch.(createdAt := now)];
    }

    method Take(id: string, purpose: string, now: int) returns (r: Option<Challenge>)
      modifies this
      ensures table == old(table) - {id}
      ensures r == if id in old(table) && Accepts(old(table)[id], purpose, now) then Some(old(table)[id]) else None
      ensures r.Some? <==>
                && id in old(table)
                && (purpose == "" || old(table)[id].purpose == purpose)
                && now <= old(table)[id].createdAt + 300_000_000
      ensures r.Some? ==> r.value == old(table)[id]
    {
      if id !in table {
        return None;
      }
      var ch := table[id];
      table := table - {id};
      if purpose != "" && ch.purpose != purpose {
        return None;
      }
      if Expired(ch, now) {
        return None;
      }
      return Some(ch);
    }
  }

  // ----- Runs -----

  datatype Event = Issue(id: string, ch: Challenge, at: int) | Take(id: string, purpose: string, at: int)

  predicate Ordered(h: seq<Event>) {
    forall i, j :: 0 <= i < j < |h| ==> h[i].at <= h[j].at
  }

  function After(h: seq<Event>): Table {
    if h == [] then map[]
    else
      var t, e := After(h[..|h| - 1]), h[|h| - 1];
      match e
      case Issue(id, ch, at) => Pruned(t, at)[id := ch.(createdAt := at)]
      case Take(id, _, _) => t - {id}
  }

  /** What the table answers to a take after history h. */
  function Answer(h: seq<Event>, id: string, purpose: string, now: int): Option<Challenge> {
    var t := After(h);
    if id in t && Accepts(t[id], purpose, now) then Some(t[id]) else None
  }

  /** The challenge last issued under an id and not taken since, read off the history alone. */
  function Outstanding(h: seq<Event>, id: string): Option<Challenge> {
    if h == [] then None
    else
      var e := h[|h| - 1];
      if e.id != id then Outstanding(h[..|h| - 1], id)
      else if e.Take? then None
      else Some(e.ch.(createdAt := e.at))
  }

  /** The table holds outstanding challenges only, and drops one only once it has expired. */
  lemma {:induction false} TableIsOutstanding(h: seq<Event>, id: string, now: int)
    requires Ordered(h) && forall i :: 0 <= i < |h| ==> h[i].at <= now
    ensures id in After(h) ==> Outstanding(h, id) == Some(After(h)[id])
    ensures id !in After(h) && Outstanding(h, id).Some? ==> Expired(Outstanding(h, id).value, now)
  {
    if h != [] {
      TableIsOutstanding(h[..|h| - 1], id, h[|h| - 1].at);
    }
  }

  /** In any run the table answers as if nothing were ever pruned: a take is accepted exactly when the
      challenge is outstanding, the purpose fits and the challenge is within its lifetime. */
  lemma PruningIsInvisible(h: seq<Event>, id: string, purpose: string, now: int)
    requires Ordered(h) && forall i :: 0 <= i < |h| ==> h[i].at <= now
    ensures Answer(h, id, purpose, now) ==
            var o := Outstanding(h, id); if o.Some? && Accepts(o.value, purpose, now) then o else None
  {
    TableIsOutstanding(h, id, now);
  }

  lemma {:induction false} NothingAfterTake(h: seq<Event>, i: nat, id: string)
    requires i < |h| && h[i].Take? && h[i].id == id
    requires forall j :: i < j < |h| ==> !(h[j].Issue? && h[j].id == id)
    ensures Outstanding(h, id).None?
  {
    if i < |h| - 1 {
      NothingAfterTake(h[..|h| - 1], i, id);
    }
  }

  /** An accepted challenge was issued for the purpose asked for, at most five minutes ago. */
  lemma AcceptedInTime(h: seq<Event>, id: string, purpose: string, now: int) returns (i: nat)
    requires Ordered(h) && (forall i :: 0 <= i < |h| ==> h[i].at <= now) && Answer(h, id, purpose, now).Some?
    ensures i < |h| && h[i].Issue? && h[i].id == id && now - 300_000_000 <= h[i].at <= now
    ensures purpose == "" || h[i].ch.purpose == purpose
    ensures Answer(h, id, purpose, now).value == h[i].ch.(createdAt := h[i].at)
    ensures forall j :: i < j < |h| ==> h[j].id != id
  {
    PruningIsInvisible(h, id, purpose, now);
    i := LastIssue(h, id);
  }

  lemma {:induction false} LastIssue(h: seq<Event>, id: string) returns (i: nat)
    requires Outstanding(h, id).Some?
    ensures i < |h| && h[i].Issue? && h[i].id == id && Outstanding(h, id).value == h[i].ch.(createdAt := h[i].at)
    ensures forall j :: i < j < |h| ==> h[j].id != id
  {
    i := |h| - 1;
    if h[i].id != id {
      i := LastIssue(h[..|h| - 1], id);
    }
  }

  /** An id issued once is accepted at most once, whatever the purposes asked for. */
  lemma AcceptedAtMostOnce(h: seq<Event>, i: nat, id: string, purpose: string, now: int)
    requires Ordered(h) && forall j :: 0 <= j < |h| ==> h[j].at <= now
    requires i < |h| && h[i].Take? && h[i].id == id
    requires forall j :: i < j < |h| ==> !(h[j].Issue? && h[j].id == id)
    ensures Answer(h, id, purpose, now).None?
  {
    NothingAfterTake(h, i, id);
    PruningIsInvisible(h, id, purpose, now);
  }
}
