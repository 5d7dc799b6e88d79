/** The DKIM tag list builder: an insertion-ordered map printed in the prescribed tag order. */
module DkimTags {
  import opened Text

  /** Tag names: the ten the signer uses, and any other. */
  datatype Key = V | A | C | D | S | T | X | H | BH | B | Other(name: string)

  function Name(k: Key): string {
    match k
    case V => "v" case A => "a" case C => "c" case D => "d" case S => "s" case T => "t"
    case X => "x" case H => "h" case BH => "bh" case B => "b" case Other(n) => n
  }

  function Rank(k: Key): nat {
    match k
    case V => 1 case A => 2 case C => 3 case D => 4 case S => 5 case T => 6
    case X => 7 case H => 8 case BH => 9 case B => 10 case Other(_) => 99
  }

  // ----- A stable sort by rank -----

  function InsertRight(s: seq<Key>, k: Key, rank: Key -> nat): seq<Key> {
    if s == [] || rank(s[|s| - 1]) <= rank(k) then s + [k]
    else InsertRight(s[..|s| - 1], k, rank) + [s[|s| - 1]]
  }

  function StableSort(keys: seq<Key>, rank: Key -> nat): seq<Key> {
    if keys == [] then [] else InsertRight(StableSort(keys[..|keys| - 1], rank), keys[|keys| - 1], rank)
  }

  ghost predicate Ranked(s: seq<Key>, rank: Key -> nat) {
    forall i, j :: 0 <= i < j < |s| ==> rank(s[i]) <= rank(s[j])
  }

  lemma {:induction false} InsertRightMembers(s: seq<Key>, k: Key, rank: Key -> nat)
    ensures multiset(InsertRight(s, k, rank)) == multiset(s) + multiset{k}
  {
    if s != [] && rank(s[|s| - 1]) > rank(k) {
      InsertRightMembers(s[..|s| - 1], k, rank);
      assert s == s[..|s| - 1] + [s[|s| - 1]];
    }
  }

  lemma RankedSnoc(s: seq<Key>, k: Key, rank: Key -> nat)
    requires Ranked(s, rank) && forall i :: 0 <= i < |s| ==> rank(s[i]) <= rank(k)
    ensures Ranked(s + [k], rank)
  {
  }

  lemma {:induction false} InsertRightRanked(s: seq<Key>, k: Key, rank: Key -> nat)
    requires Ranked(s, rank)
    ensures Ranked(InsertRight(s, k, rank), rank)
  {
    if s == [] || rank(s[|s| - 1]) <= rank(k) {
      RankedSnoc(s, k, rank);
    } else {
      var front, end := s[..|s| - 1], s[|s| - 1];
      InsertRightRanked(front, k, rank);
      var t := InsertRight(front, k, rank);
      InsertRightMembers(front, k, rank);
      forall i | 0 <= i < |t| ensures rank(t[i]) <= rank(end) {
        assert t[i] in multiset(t);
        assert t[i] == k || t[i] in multiset(front);
      }
      RankedSnoc(t, end, rank);
    }
  }

  lemma {:induction false} StableSortSorts(keys: seq<Key>, rank: Key -> nat)
    ensures Ranked(StableSort(keys, rank), rank) && multiset(StableSort(keys, rank)) == multiset(keys)
  {
    if keys != [] {
      var front := keys[..|keys| - 1];
      StableSortSorts(front, rank);
      InsertRightRanked(StableSort(front, rank), keys[|keys| - 1], rank);
      InsertRightMembers(StableSort(front, rank), keys[|keys| - 1], rank);
      assert keys == front + [keys[|keys| - 1]];
    }
  }

  /** The keys of one rank, in order. */
  function OfRank(s: seq<Key>, rank: Key -> nat, r: nat): seq<Key> {
    if s == [] then []
    else OfRank(s[..|s| - 1], rank, r) + (if rank(s[|s| - 1]) == r then [s[|s| - 1]] else [])
  }

  lemma OfRankSnoc(s: seq<Key>, k: Key, rank: Key -> nat, r: nat)
    ensures OfRank(s + [k], rank, r) == OfRank(s, rank, r) + (if rank(k) == r then [k] else [])
  {
    assert (s + [k])[..|s|] == s;
  }

  lemma SwapOne(a: seq<Key>, x: seq<Key>, y: seq<Key>)
    requires x == [] || y == []
    ensures a + x + y == a + y + x
  {
  }

  lemma {:induction false} InsertRightStable(s: seq<Key>, k: Key, rank: Key -> nat, r: nat)
    ensures OfRank(InsertRight(s, k, rank), rank, r) == OfRank(s, rank, r) + (if rank(k) == r then [k] else [])
  {
    if s == [] || rank(s[|s| - 1]) <= rank(k) {
      OfRankSnoc(s, k, rank, r);
    } else {
      var front, end := s[..|s| - 1], s[|s| - 1];
      InsertRightStable(front, k, rank, r);
      OfRankSnoc(InsertRight(front, k, rank), end, rank, r);
      SwapOne(OfRank(front, rank, r), if rank(k) == r then [k] else [], if rank(end) == r then [end] else []);
    }
  }

  /** Sorting moves no key past another of the same rank. */
  lemma {:induction false} StableSortIsStable(keys: seq<Key>, rank: Key -> nat, r: nat)
    ensures OfRank(StableSort(keys, rank), rank, r) == OfRank(keys, rank, r)
  {
    if keys != [] {
      var front, end := keys[..|keys| - 1], keys[|keys| - 1];
      StableSortIsStable(front, rank, r);
      InsertRightStable(StableSort(front, rank), end, rank, r);
    }
  }

  lemma {:induction false} RankedStays(keys: seq<Key>, rank: Key -> nat)
    requires Ranked(keys, rank)
    ensures StableSort(keys, rank) == keys
  {
    if keys != [] {
      RankedStays(keys[..|keys| - 1], rank);
      assert keys == keys[..|keys| - 1] + [keys[|keys| - 1]];
    }
  }

  lemma SortKeepsMembers(keys: seq<Key>, rank: Key -> nat)
    ensures forall k :: k in StableSort(keys, rank) <==> k in keys
  {
    StableSortSorts(keys, rank);
    forall k ensures k in StableSort(keys, rank) <==> k in keys {
      assert k in StableSort(keys, rank) <==> k in multiset(StableSort(keys, rank));
      assert k in keys <==> k in multiset(keys);
    }
  }

  function SortByRank(keys: seq<Key>): seq<Key> {
    StableSort(keys, Rank)
  }

  // ----- Printing -----

  function Tag(k: Key, v: string): string {
    Name(k) + "=" + v
  }

  function TagParts(keys: seq<Key>, vals: map<Key, string>): seq<string>
    requires forall k :: k in keys ==> k in vals
  {
    seq(|keys|, i requires 0 <= i < |keys| => Tag(keys[i], vals[keys[i]]))
  }

  function Render(keys: seq<Key>, vals: map<Key, string>): string
    requires forall k :: k in keys ==> k in vals
  {
    Join(TagParts(keys, vals), "; ")
  }

  class TagBuilder {
    var keys: seq<Key>
    var vals: map<Key, string>

    ghost predicate Valid()
      reads this
    {
      (forall k :: k in keys <==> k in vals) && (forall i, j :: 0 <= i < j < |keys| ==> keys[i] != keys[j])
    }

    constructor ()
      ensures Valid() && keys == [] && vals == map[]
    {
      keys, vals := [], map[];
    }

    method Set(k: Key, v: string)
      requires Valid()
      modifies this
      ensures Valid() && vals == old(vals)[k := v]
      ensures keys == if k in old(vals) then old(keys) else old(keys) + [k]
    {
      if k !in vals {
        keys := keys + [k];
      }
      vals := vals[k := v];
    }

    method Print() returns (s: string)
      requires Valid()
      ensures (forall k :: k in SortByRank(keys) ==> k in vals) && s == Render(SortByRank(keys), vals)
    {
      SortKeepsMembers(keys, Rank);
      s := PrintTags(SortByRank(keys), vals);
    }
  }

  lemma RenderSnoc(keys: seq<Key>, k: Key, vals: map<Key, string>)
    requires k in vals && forall x :: x in keys ==> x in vals
    ensures Render(keys + [k], vals) == (if keys == [] then "" else Render(keys, vals) + "; ") + Tag(k, vals[k])
  {
    assert TagParts(keys + [k], vals) == TagParts(keys, vals) + [Tag(k, vals[k])];
    JoinLast(TagParts(keys, vals), Tag(k, vals[k]), "; ");
  }

  method PrintTags(keys: seq<Key>, vals: map<Key, string>) returns (s: string)
    requires forall k :: k in keys ==> k in vals
    ensures s == Render(keys, vals)
  {
    s := "";
    for i := 0 to |keys|
      invariant s == Render(keys[..i], vals)
    {
      assert keys[..i + 1] == keys[..i] + [keys[i]];
      RenderSnoc(keys[..i], keys[i], vals);
      if i > 0 {
        s := s + "; ";
      }
      s := s + (Name(keys[i]) + "=" + vals[keys[i]]);
    }
    assert keys[..|keys|] == keys;
  }

  // ----- b= comes last -----

  lemma LastByRank(keys: seq<Key>, rank: Key -> nat, last: Key)
    requires forall i, j :: 0 <= i < j < |keys| ==> keys[i] != keys[j]
    requires last in keys && forall k :: k in keys && k != last ==> rank(k) < rank(last)
    ensures var s := StableSort(keys, rank); s != [] && s[|s| - 1] == last && last !in s[..|s| - 1]
  {
    var s := StableSort(keys, rank);
    StableSortSorts(keys, rank);
    SortKeepsMembers(keys, rank);
    var i :| 0 <= i < |s| && s[i] == last;
    var end := s[|s| - 1];
    assert end in keys;
    CountDistinct(keys, last);
    var front := s[..|s| - 1];
    assert s == front + [end];
    assert multiset(s)[last] == 1;
    assert last in front ==> last in multiset(front);
  }

  lemma {:induction false} CountDistinct(keys: seq<Key>, k: Key)
    requires forall i, j :: 0 <= i < j < |keys| ==> keys[i] != keys[j]
    ensures multiset(keys)[k] == if k in keys then 1 else 0
  {
    if keys != [] {
      var front := keys[..|keys| - 1];
      CountDistinct(front, k);
      assert keys == front + [keys[|keys| - 1]];
    }
  }

  /** Among tags of known rank, b= prints last whatever the order of insertion, so setting its value
      appends that value to the text printed with b= blank. */
  lemma SignatureIsAppended(keys: seq<Key>, vals: map<Key, string>, sig: string)
    requires forall i, j :: 0 <= i < j < |keys| ==> keys[i] != keys[j]
    requires forall k :: k in keys ==> k in vals && Rank(k) <= 10
    requires B in keys
    ensures forall k :: k in SortByRank(keys) ==> k in vals
    ensures Render(SortByRank(keys), vals[B := sig]) == Render(SortByRank(keys), vals[B := ""]) + sig
  {
    var s := SortByRank(keys);
    SortKeepsMembers(keys, Rank);
    forall k | k in keys && k != B ensures Rank(k) < Rank(B) {
    }
    LastByRank(keys, Rank, B);
    var front := s[..|s| - 1];
    assert s == front + [B];
    AppendToLast(front, vals, sig);
  }

  lemma AppendToLast(front: seq<Key>, vals: map<Key, string>, sig: string)
    requires B !in front && forall k :: k in front ==> k in vals
    ensures Render(front + [B], vals[B := sig]) == Render(front + [B], vals[B := ""]) + sig
  {
    var full, blank := vals[B := sig], vals[B := ""];
    RenderSnoc(front, B, full);
    RenderSnoc(front, B, blank);
    assert TagParts(front, full) == TagParts(front, blank);
    assert Tag(B, sig) == Tag(B, "") + sig;
  }
}
