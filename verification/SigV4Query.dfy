/** The canonical query string: keys sorted, each key's values sorted, every pair percent-encoded.
    Keys are sorted by their raw bytes, not by their encoded form. */
module SigV4Query {
  import opened Common
  import opened Text
  import opened Sorting
  import opened SigV4

  type Query = map<string, seq<string>>
  type Pair = (string, string)

  predicate BytesQuery(q: Query) {
    forall k :: k in q ==> IsBytes(k) && forall i :: 0 <= i < |q[k]| ==> IsBytes(q[k][i])
  }

  predicate EveryKeyHasValue(q: Query) {
    forall k :: k in q ==> q[k] != []
  }

  // ----- What the code writes -----

  function Segment(k: string, v: string): string
    requires IsBytes(k) && IsBytes(v)
  {
    Encode(k, true) + "=" + Encode(v, true)
  }

  function KeySegments(k: string, vals: seq<string>): seq<string>
    requires IsBytes(k) && forall i :: 0 <= i < |vals| ==> IsBytes(vals[i])
  {
    seq(|vals|, i requires 0 <= i < |vals| => Segment(k, vals[i]))
  }

  lemma SortedValuesAreBytes(vals: seq<string>)
    requires forall i :: 0 <= i < |vals| ==> IsBytes(vals[i])
    ensures forall i :: 0 <= i < |Sort(vals, LexLe)| ==> IsBytes(Sort(vals, LexLe)[i])
    ensures |Sort(vals, LexLe)| == |vals|
  {
    LexIsTotalOrder();
    SortSorts(vals, LexLe);
    var s := Sort(vals, LexLe);
    assert |s| == |multiset(s)| && |vals| == |multiset(vals)|;
    forall i | 0 <= i < |s| ensures IsBytes(s[i]) {
      assert s[i] in multiset(s);
      assert s[i] in multiset(vals);
    }
  }

  function SegmentsOf(q: Query, k: string): (segs: seq<string>)
    requires BytesQuery(q) && k in q
    ensures |segs| == |q[k]|
  {
    SortedValuesAreBytes(q[k]);
    KeySegments(k, Sort(q[k], LexLe))
  }

  function KeyTexts(q: Query, ks: seq<string>): seq<string>
    requires BytesQuery(q) && forall k :: k in ks ==> k in q
  {
    seq(|ks|, i requires 0 <= i < |ks| => Join(SegmentsOf(q, ks[i]), "&"))
  }

  function QueryText(q: Query, ks: seq<string>): string
    requires BytesQuery(q) && forall k :: k in ks ==> k in q
  {
    Join(KeyTexts(q, ks), "&")
  }

  ghost function KeyList(q: Query): (ks: seq<string>)
    ensures forall k :: k in ks <==> k in q
  {
    LexIsTotalOrder();
    SortSetSorts(q.Keys, LexLe);
    var ks := SortSet(q.Keys, LexLe);
    assert forall k :: k in ks <==> k in multiset(ks);
    ks
  }

  method CollectKeys(q: Query) returns (ks: seq<string>)
    ensures multiset(ks) == multiset(q.Keys)
  {
    ks := [];
    var todo := q.Keys;
    while todo != {}
      invariant multiset(ks) + multiset(todo) == multiset(q.Keys)
      decreases |todo|
    {
      var k :| k in todo;
      assert multiset(todo) == multiset(todo - {k}) + multiset{k};
      ks, todo := ks + [k], todo - {k};
    }
  }

  method WriteKey(k: string, vals: seq<string>) returns (out: string)
    requires IsBytes(k) && forall i :: 0 <= i < |vals| ==> IsBytes(vals[i])
    ensures out == Join(KeySegments(k, vals), "&")
  {
    var ek := UriEncode(k, true);
    out := "";
    for j := 0 to |vals|
      invariant out == Join(KeySegments(k, vals)[..j], "&")
    {
      assert KeySegments(k, vals)[..j + 1] == KeySegments(k, vals)[..j] + [Segment(k, vals[j])];
      JoinLast(KeySegments(k, vals)[..j], Segment(k, vals[j]), "&");
      if j > 0 {
        out := out + "&";
      }
      var ev := UriEncode(vals[j], true);
      out := out + (ek + "=" + ev);
    }
    assert KeySegments(k, vals)[..|vals|] == KeySegments(k, vals);
  }

  method SortedKeys(q: Query) returns (ks: seq<string>)
    ensures ks == KeyList(q)
  {
    var keys := CollectKeys(q);
    LexIsTotalOrder();
    SortSorts(keys, LexLe);
    SortSetSorts(q.Keys, LexLe);
    ks := Sort(keys, LexLe);
    SortedUnique(ks, KeyList(q), LexLe);
  }

  lemma KeyTextsSnoc(q: Query, ks: seq<string>, i: nat, text: string)
    requires BytesQuery(q) && (forall k :: k in ks ==> k in q) && i < |ks| && text == KeyTexts(q, ks)[i]
    ensures var texts := KeyTexts(q, ks);
            Join(texts[..i + 1], "&") == (if i == 0 then "" else Join(texts[..i], "&") + "&") + text
  {
    var texts := KeyTexts(q, ks);
    assert texts[..i + 1] == texts[..i] + [text];
    JoinLast(texts[..i], text, "&");
  }

  method WriteQuery(q: Query, ks: seq<string>) returns (out: string)
    requires BytesQuery(q) && forall k :: k in ks ==> k in q
    ensures out == QueryText(q, ks)
  {
    out := "";
    ghost var texts := KeyTexts(q, ks);
    for i := 0 to |ks|
      invariant out == Join(texts[..i], "&")
    {
      assert ks[i] in ks;
      SortedValuesAreBytes(q[ks[i]]);
      var text := WriteKey(ks[i], Sort(q[ks[i]], LexLe));
      KeyTextsSnoc(q, ks, i, text);
      if i > 0 {
        out := out + "&";
      }
      out := out + text;
    }
    assert texts[..|ks|] == texts;
  }

  /** Whatever order the map yields its keys in, the text is that of the sorted key list. */
  method CanonicalQuery(q: Query) returns (out: string)
    requires BytesQuery(q)
    ensures out == QueryText(q, KeyList(q))
  {
    var ks := SortedKeys(q);
    out := WriteQuery(q, ks);
  }

  // ----- Reading it back -----

  function ParseSegment(s: string): Option<Pair> {
    var i := Index(s, "=");
    if i < 0 then None
    else
      var k, v := Decode(s[..i]), Decode(s[i + 1..]);
      if k.None? || v.None? then None else Some((k.value, v.value))
  }

  function ParseSegments(segs: seq<string>): Option<seq<Pair>> {
    if segs == [] then Some([])
    else
      var p, rest := ParseSegment(segs[0]), ParseSegments(segs[1..]);
      if p.None? || rest.None? then None else Some([p.value] + rest.value)
  }

  function Parse(text: string): Option<seq<Pair>> {
    if text == "" then Some([]) else ParseSegments(Split(text, "&"))
  }

  lemma SegmentParses(k: string, v: string)
    requires IsBytes(k) && IsBytes(v)
    ensures ParseSegment(Segment(k, v)) == Some((k, v)) && '&' !in Segment(k, v) && Segment(k, v) != ""
  {
    var ek, ev := Encode(k, true), Encode(v, true);
    var s := Segment(k, v);
    forall i | 0 <= i < |ek| ensures !("=" <= s[i..]) {
      EncodedChars(k, true, ek[i]);
      StartsChar(s[i..], '=');
      assert s[i..][0] == ek[i];
    }
    IndexOf(ek, "=", ev);
    assert s[..|ek|] == ek && s[|ek| + 1..] == ev;
    DecodeUndoesEncode(k, true);
    DecodeUndoesEncode(v, true);
    if '&' in ek { EncodedChars(k, true, '&'); }
    if '&' in ev { EncodedChars(v, true, '&'); }
  }

  /** The pairs of a query, by sorted key and then by sorted value. */
  function PairsOfKey(k: string, vals: seq<string>): seq<Pair> {
    seq(|vals|, i requires 0 <= i < |vals| => (k, vals[i]))
  }

  function PairsOf(q: Query, ks: seq<string>): seq<Pair>
    requires forall k :: k in ks ==> k in q
  {
    if ks == [] then []
    else
      assert ks[0] in ks;
      PairsOfKey(ks[0], Sort(q[ks[0]], LexLe)) + PairsOf(q, ks[1..])
  }

  /** What splitting at & yields for one key: its segments, or one empty piece if it has no values. */
  function PiecesOf(q: Query, k: string): seq<string>
    requires BytesQuery(q) && k in q
  {
    if q[k] == [] then [""] else SegmentsOf(q, k)
  }

  function AllPieces(q: Query, ks: seq<string>): seq<string>
    requires BytesQuery(q) && forall k :: k in ks ==> k in q
  {
    if ks == [] then []
    else
      assert ks[0] in ks;
      PiecesOf(q, ks[0]) + AllPieces(q, ks[1..])
  }

  lemma KeyTextSplits(q: Query, k: string)
    requires BytesQuery(q) && k in q
    ensures Split(Join(SegmentsOf(q, k), "&"), "&") == PiecesOf(q, k)
  {
    var segs := SegmentsOf(q, k);
    SortedValuesAreBytes(q[k]);
    if segs != [] {
      forall i | 0 <= i < |segs| ensures Whole(segs[i], "&") {
        SegmentParses(k, Sort(q[k], LexLe)[i]);
        WholeWithout(segs[i], "&", 0);
      }
      SplitJoin(segs, "&");
    }
  }

  lemma {:induction false} QuerySplits(q: Query, ks: seq<string>)
    requires BytesQuery(q) && ks != [] && forall k :: k in ks ==> k in q
    ensures Split(QueryText(q, ks), "&") == AllPieces(q, ks)
  {
    assert ks[0] in ks;
    KeyTextSplits(q, ks[0]);
    var texts := KeyTexts(q, ks);
    if |ks| > 1 {
      QuerySplits(q, ks[1..]);
      assert texts[1..] == KeyTexts(q, ks[1..]);
      SplitAppend(texts[0], "&", Join(texts[1..], "&"));
    } else {
      assert AllPieces(q, ks[1..]) == [];
      assert PiecesOf(q, ks[0]) + [] == PiecesOf(q, ks[0]);
    }
  }

  lemma {:induction false} ParseAppend(a: seq<string>, b: seq<string>)
    ensures ParseSegments(a + b) ==
            if ParseSegments(a).None? || ParseSegments(b).None? then None
            else Some(ParseSegments(a).value + ParseSegments(b).value)
  {
    if a == [] {
      assert a + b == b;
      assert ParseSegments(b).Some? ==> [] + ParseSegments(b).value == ParseSegments(b).value;
    } else {
      assert (a + b)[1..] == a[1..] + b;
      ParseAppend(a[1..], b);
      if ParseSegment(a[0]).Some? && ParseSegments(a[1..]).Some? && ParseSegments(b).Some? {
        var p, x, y := [ParseSegment(a[0]).value], ParseSegments(a[1..]).value, ParseSegments(b).value;
        assert p + (x + y) == (p + x) + y;
      }
    }
  }

  lemma {:induction false} KeyParses(k: string, vals: seq<string>)
    requires IsBytes(k) && forall i :: 0 <= i < |vals| ==> IsBytes(vals[i])
    ensures ParseSegments(KeySegments(k, vals)) == Some(PairsOfKey(k, vals))
  {
    if vals != [] {
      KeyParses(k, vals[1..]);
      SegmentParses(k, vals[0]);
      assert KeySegments(k, vals)[1..] == KeySegments(k, vals[1..]);
      assert PairsOfKey(k, vals) == [(k, vals[0])] + PairsOfKey(k, vals[1..]);
    }
  }

  lemma EmptyPiece()
    ensures ParseSegments([""]).None?
  {
    assert ParseSegment("") == None;
  }

  /** All pieces parse exactly when no key lacks a value, and then to the pairs. */
  lemma {:induction false} PiecesParse(q: Query, ks: seq<string>)
    requires BytesQuery(q) && forall k :: k in ks ==> k in q
    ensures ParseSegments(AllPieces(q, ks)) ==
            if exists i :: 0 <= i < |ks| && q[ks[i]] == [] then None else Some(PairsOf(q, ks))
  {
    if ks != [] {
      assert ks[0] in ks;
      PiecesParse(q, ks[1..]);
      ParseAppend(PiecesOf(q, ks[0]), AllPieces(q, ks[1..]));
      EmptyPiece();
      SortedValuesAreBytes(q[ks[0]]);
      KeyParses(ks[0], Sort(q[ks[0]], LexLe));
      if i :| 0 <= i < |ks| && q[ks[i]] == [] {
        if i > 0 {
          assert ks[1..][i - 1] == ks[i];
        }
      }
    }
  }

  lemma {:induction false} JoinEmptyIff(parts: seq<string>)
    ensures Join(parts, "&") == "" <==> parts == [] || parts == [""]
  {
    if |parts| == 1 {
      assert parts == [parts[0]];
    }
  }

  lemma KeyTextEmptyIff(q: Query, k: string)
    requires BytesQuery(q) && k in q
    ensures Join(SegmentsOf(q, k), "&") == "" <==> q[k] == []
  {
    JoinEmptyIff(SegmentsOf(q, k));
    SortedValuesAreBytes(q[k]);
    if q[k] != [] {
      SegmentParses(k, Sort(q[k], LexLe)[0]);
    }
  }

  lemma NoDuplicateKeys(q: Query)
    ensures |KeyList(q)| == |q|
  {
    LexIsTotalOrder();
    SortSetSorts(q.Keys, LexLe);
    assert |KeyList(q)| == |multiset(KeyList(q))| && |multiset(q.Keys)| == |q.Keys|;
  }

  predicate SomeKeyLacksValue(q: Query, ks: seq<string>)
    requires forall k :: k in ks ==> k in q
  {
    exists i :: 0 <= i < |ks| && q[ks[i]] == []
  }

  lemma FewKeysParse(q: Query, ks: seq<string>)
    requires BytesQuery(q) && |ks| <= 1 && forall k :: k in ks ==> k in q
    ensures Parse(QueryText(q, ks)) == Some(PairsOf(q, ks))
  {
    var texts := KeyTexts(q, ks);
    if ks == [] {
      assert texts == [];
    } else {
      assert ks[0] in ks && texts == [texts[0]] && ks == [ks[0]];
      QuerySplits(q, ks);
      PiecesParse(q, ks);
      KeyTextEmptyIff(q, ks[0]);
      if q[ks[0]] == [] {
        assert Sort(q[ks[0]], LexLe) == [];
        assert PairsOfKey(ks[0], []) == [] && PairsOf(q, ks[1..]) == [];
        assert PairsOf(q, ks) == [];
        assert QueryText(q, ks) == "";
      }
    }
  }

  lemma ManyKeysParse(q: Query, ks: seq<string>)
    requires BytesQuery(q) && |ks| > 1 && forall k :: k in ks ==> k in q
    ensures Parse(QueryText(q, ks)) == if SomeKeyLacksValue(q, ks) then None else Some(PairsOf(q, ks))
  {
    QuerySplits(q, ks);
    PiecesParse(q, ks);
    JoinEmptyIff(KeyTexts(q, ks));
  }

  /** Splitting at & and =, then percent-decoding, gives back all pairs sorted by raw key and then by value:
      exactly when every key has a value, or there is at most one key. */
  lemma QueryParsesIff(q: Query)
    requires BytesQuery(q)
    ensures Parse(QueryText(q, KeyList(q))) == Some(PairsOf(q, KeyList(q))) <==> EveryKeyHasValue(q) || |q| <= 1
  {
    var ks := KeyList(q);
    NoDuplicateKeys(q);
    if |ks| <= 1 {
      FewKeysParse(q, ks);
    } else {
      ManyKeysParse(q, ks);
      assert SomeKeyLacksValue(q, ks) <==> !EveryKeyHasValue(q);
    }
  }

  // ----- The text is as good as the multiset of pairs -----

  predicate PairLe(a: Pair, b: Pair) {
    if a.0 == b.0 then LexLe(a.1, b.1) else LexLe(a.0, b.0)
  }

  lemma PairLeIsTotalOrder()
    ensures TotalOrder(PairLe)
  {
    LexIsTotalOrder();
    forall a: Pair, b: Pair ensures PairLe(a, b) || PairLe(b, a) {}
    forall a: Pair, b: Pair | PairLe(a, b) && PairLe(b, a) ensures a == b {}
    forall a: Pair, b: Pair, c: Pair | PairLe(a, b) && PairLe(b, c) ensures PairLe(a, c) {}
  }

  lemma {:induction false} PairsMembers(q: Query, ks: seq<string>, p: Pair)
    requires (forall k :: k in ks ==> k in q) && p in PairsOf(q, ks)
    ensures p.0 in ks
  {
    assert ks[0] in ks;
    if p !in PairsOfKey(ks[0], Sort(q[ks[0]], LexLe)) {
      PairsMembers(q, ks[1..], p);
    }
  }

  lemma {:induction false} PairsAreSorted(q: Query, ks: seq<string>)
    requires (forall k :: k in ks ==> k in q) && SortedBy(ks, LexLe)
    requires forall i, j :: 0 <= i < j < |ks| ==> ks[i] != ks[j]
    ensures SortedBy(PairsOf(q, ks), PairLe)
  {
    if ks != [] {
      assert ks[0] in ks;
      PairsAreSorted(q, ks[1..]);
      LexIsTotalOrder();
      SortSorts(q[ks[0]], LexLe);
      var a, b := PairsOfKey(ks[0], Sort(q[ks[0]], LexLe)), PairsOf(q, ks[1..]);
      forall i, j | 0 <= i < |a| && 0 <= j < |b| ensures PairLe(a[i], b[j]) {
        PairsMembers(q, ks[1..], b[j]);
        var m :| 0 <= m < |ks[1..]| && ks[1..][m] == b[j].0;
        assert ks[m + 1] == b[j].0;
      }
      SortedConcat(a, b);
    }
  }

  lemma SortedConcat(a: seq<Pair>, b: seq<Pair>)
    requires SortedBy(a, PairLe) && SortedBy(b, PairLe)
    requires forall i, j :: 0 <= i < |a| && 0 <= j < |b| ==> PairLe(a[i], b[j])
    ensures SortedBy(a + b, PairLe)
  {
  }

  /** How often a query holds a pair. */
  function Occurrences(q: Query, p: Pair): nat {
    if p.0 in q then multiset(q[p.0])[p.1] else 0
  }

  lemma {:induction false} KeyOccurrences(k: string, vals: seq<string>, p: Pair)
    ensures multiset(PairsOfKey(k, vals))[p] == if p.0 == k then multiset(vals)[p.1] else 0
  {
    if vals != [] {
      KeyOccurrences(k, vals[1..], p);
      assert PairsOfKey(k, vals) == [(k, vals[0])] + PairsOfKey(k, vals[1..]);
      assert vals == [vals[0]] + vals[1..];
    }
  }

  lemma {:induction false} PairOccurrences(q: Query, ks: seq<string>, p: Pair)
    requires (forall k :: k in ks ==> k in q) && forall i, j :: 0 <= i < j < |ks| ==> ks[i] != ks[j]
    ensures multiset(PairsOf(q, ks))[p] == if p.0 in ks then Occurrences(q, p) else 0
  {
    if ks != [] {
      assert ks[0] in ks;
      PairOccurrences(q, ks[1..], p);
      LexIsTotalOrder();
      SortSorts(q[ks[0]], LexLe);
      KeyOccurrences(ks[0], Sort(q[ks[0]], LexLe), p);
      assert ks == [ks[0]] + ks[1..];
    }
  }

  lemma KeyListDistinct(q: Query)
    ensures SortedBy(KeyList(q), LexLe)
    ensures forall i, j :: 0 <= i < j < |KeyList(q)| ==> KeyList(q)[i] != KeyList(q)[j]
  {
    LexIsTotalOrder();
    SortSetSorts(q.Keys, LexLe);
    Distinct(KeyList(q), q.Keys);
  }

  lemma Distinct(ks: seq<string>, s: set<string>)
    requires multiset(ks) == multiset(s)
    ensures forall i, j :: 0 <= i < j < |ks| ==> ks[i] != ks[j]
  {
    forall i, j | 0 <= i < j < |ks| ensures ks[i] != ks[j] {
      assert ks == ks[..i] + [ks[i]] + ks[i + 1..j] + [ks[j]] + ks[j + 1..];
      assert multiset(s)[ks[i]] <= 1;
    }
  }

  lemma {:induction false} PiecesFromPairs(q: Query, ks: seq<string>, r: Query, ls: seq<string>)
    requires BytesQuery(q) && BytesQuery(r) && EveryKeyHasValue(q) && EveryKeyHasValue(r)
    requires (forall k :: k in ks ==> k in q) && (forall k :: k in ls ==> k in r)
    requires PairsOf(q, ks) == PairsOf(r, ls)
    ensures AllPieces(q, ks) == AllPieces(r, ls)
  {
    PieceList(q, ks);
    PieceList(r, ls);
  }

  function SegmentList(pairs: seq<Pair>): seq<string>
    requires BytesPairs(pairs)
  {
    seq(|pairs|, i requires 0 <= i < |pairs| => Segment(pairs[i].0, pairs[i].1))
  }

  predicate BytesPairs(pairs: seq<Pair>) {
    forall i :: 0 <= i < |pairs| ==> IsBytes(pairs[i].0) && IsBytes(pairs[i].1)
  }

  lemma SegmentListAppend(a: seq<Pair>, b: seq<Pair>)
    requires BytesPairs(a) && BytesPairs(b)
    ensures BytesPairs(a + b) && SegmentList(a + b) == SegmentList(a) + SegmentList(b)
  {
    assert BytesPairs(a + b);
  }

  lemma {:induction false} PieceList(q: Query, ks: seq<string>)
    requires BytesQuery(q) && EveryKeyHasValue(q) && forall k :: k in ks ==> k in q
    ensures BytesPairs(PairsOf(q, ks))
    ensures AllPieces(q, ks) == SegmentList(PairsOf(q, ks))
  {
    if ks != [] {
      assert ks[0] in ks;
      PieceList(q, ks[1..]);
      SortedValuesAreBytes(q[ks[0]]);
      var a, b := PairsOfKey(ks[0], Sort(q[ks[0]], LexLe)), PairsOf(q, ks[1..]);
      SegmentListAppend(a, b);
      assert PiecesOf(q, ks[0]) == SegmentList(a);
    }
  }

  lemma PairMultiset(q: Query, p: Pair)
    ensures multiset(PairsOf(q, KeyList(q)))[p] == Occurrences(q, p)
  {
    KeyListDistinct(q);
    PairOccurrences(q, KeyList(q), p);
  }

  lemma SamePairsSameText(q: Query, r: Query)
    requires BytesQuery(q) && BytesQuery(r) && EveryKeyHasValue(q) && EveryKeyHasValue(r)
    requires multiset(PairsOf(q, KeyList(q))) == multiset(PairsOf(r, KeyList(r)))
    ensures QueryText(q, KeyList(q)) == QueryText(r, KeyList(r))
  {
    var ks, ls := KeyList(q), KeyList(r);
    KeyListDistinct(q);
    KeyListDistinct(r);
    PairLeIsTotalOrder();
    PairsAreSorted(q, ks);
    PairsAreSorted(r, ls);
    SortedUnique(PairsOf(q, ks), PairsOf(r, ls), PairLe);
    SameTextFromPieces(q, r);
  }

  /** Two queries in which every key has a value have the same canonical text exactly when they hold the
      same pairs the same number of times: map order is invisible and nothing is confused. */
  lemma SameTextIffSamePairs(q: Query, r: Query)
    requires BytesQuery(q) && BytesQuery(r) && EveryKeyHasValue(q) && EveryKeyHasValue(r)
    ensures QueryText(q, KeyList(q)) == QueryText(r, KeyList(r)) <==> forall p: Pair :: Occurrences(q, p) == Occurrences(r, p)
  {
    var a, b := multiset(PairsOf(q, KeyList(q))), multiset(PairsOf(r, KeyList(r)));
    forall p: Pair ensures a[p] == Occurrences(q, p) && b[p] == Occurrences(r, p) {
      PairMultiset(q, p);
      PairMultiset(r, p);
    }
    if QueryText(q, KeyList(q)) == QueryText(r, KeyList(r)) {
      QueryParsesIff(q);
      QueryParsesIff(r);
      assert a == b;
    } else if a == b {
      SamePairsSameText(q, r);
    }
  }

  lemma SameTextFromPieces(q: Query, r: Query)
    requires BytesQuery(q) && BytesQuery(r) && EveryKeyHasValue(q) && EveryKeyHasValue(r)
    requires PairsOf(q, KeyList(q)) == PairsOf(r, KeyList(r))
    ensures QueryText(q, KeyList(q)) == QueryText(r, KeyList(r))
  {
    var ks, ls := KeyList(q), KeyList(r);
    PiecesFromPairs(q, ks, r, ls);
    TextIsJoin(q, ks);
    TextIsJoin(r, ls);
  }

  lemma TextIsJoin(q: Query, ks: seq<string>)
    requires BytesQuery(q) && forall k :: k in ks ==> k in q
    ensures QueryText(q, ks) == Join(AllPieces(q, ks), "&")
  {
    if ks != [] {
      QuerySplits(q, ks);
      JoinSplit(QueryText(q, ks), "&");
    } else {
      assert KeyTexts(q, ks) == [];
    }
  }
}
