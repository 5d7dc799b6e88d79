/** Reading the header block of a message, and relaxed header canonicalization
    (section 3.4.2 of RFC 6376) as the signer does it. Header text is a sequence of code points. */
module DkimHeaders {
  import opened Common
  import opened Text
  import opened DkimBody

  const BLANK_LINE: string := "\r\n\r\n"

  datatype Field = Field(name: string, value: string)

  datatype Error = NoSeparator | Malformed | NilSigner | MissingDomain | BadAlgorithm | KeyFailure

  // ----- Header names -----

  function Upper(c: char): char {
    if 'a' <= c <= 'z' then (c as int - 32) as char else c
  }

  predicate NameByte(c: char) {
    'A' <= c <= 'Z' || 'a' <= c <= 'z' || '0' <= c <= '9'
    || c in {'!', '#', '$', '%', '&', '\'', '*', '+', '-', '.', '^', '_', '`', '|', '~'}
  }

  predicate ValueByte(c: char) {
    c == '\t' || (c >= ' ' && c != '\U{7F}')
  }

  /** Upper case at the start and after each hyphen, lower case elsewhere. */
  function CanonCase(s: string, up: bool): string {
    if s == "" then "" else [if up then Upper(s[0]) else LowerChar(s[0])] + CanonCase(s[1..], s[0] == '-')
  }

  /** A name with an inner space is accepted but left as it is. */
  function CanonicalKey(k: string): Option<string> {
    if k == "" || exists i :: 0 <= i < |k| && !NameByte(k[i]) && k[i] != ' ' then None
    else if ' ' in k then Some(k)
    else Some(CanonCase(k, true))
  }

  // ----- Reading the block, line by line with continuations -----

  function DropCr(l: string): string {
    if l != "" && l[|l| - 1] == CR then l[..|l| - 1] else l
  }

  function DropCrs(lines: seq<string>): seq<string> {
    seq(|lines|, i requires 0 <= i < |lines| => DropCr(lines[i]))
  }

  function TrimWsp(s: string): string {
    TrimRight(TrimLeft(s, WSP), WSP)
  }

  /** Appends the continuation lines that follow, each trimmed and one space apart. */
  function Continued(acc: string, lines: seq<string>): (r: (string, seq<string>))
    ensures |r.1| <= |lines|
    decreases |lines|
  {
    if lines != [] && lines[0] != "" && lines[0][0] in WSP then Continued(acc + " " + TrimWsp(lines[0]), lines[1..])
    else (acc, lines)
  }

  function ParseField(kv: string): Result<Field, Error> {
    var colon := Index(kv, ":");
    if colon < 0 then Err(Malformed)
    else
      var key, v := CanonicalKey(kv[..colon]), kv[colon + 1..];
      if key.None? || exists i :: 0 <= i < |v| && !ValueByte(v[i]) then Err(Malformed)
      else Ok(Field(key.value, TrimLeft(v, WSP)))
  }

  function ReadFields(lines: seq<string>): Result<seq<Field>, Error>
    decreases |lines|
  {
    if lines == [] then Err(Malformed)
    else if lines[0] == "" then Ok([])
    else if ':' !in lines[0] then Err(Malformed)
    else
      var c := Continued(TrimWsp(lines[0]), lines[1..]);
      var f := ParseField(c.0);
      var rest := ReadFields(c.1);
      if f.Err? then Err(f.error) else if rest.Err? then rest else Ok([f.value] + rest.value)
  }

  /** The fields of a header block in document order. */
  function ReadBlock(block: string): Result<seq<Field>, Error> {
    var text := block + BLANK_LINE;
    if text[0] in WSP then Err(Malformed) else ReadFields(DropCrs(Split(text, "\n")))
  }

  datatype Message = Message(fields: seq<Field>, body: string)

  lemma {:induction false} LfToCrlfAppend(a: string, b: string)
    ensures ReplaceAll(a + b, "\n", "\r\n") == ReplaceAll(a, "\n", "\r\n") + ReplaceAll(b, "\n", "\r\n")
    decreases |a|
  {
    if a == "" {
      assert a + b == b;
    } else {
      StartsChar(a, LF);
      StartsChar(a + b, LF);
      assert (a + b)[1..] == a[1..] + b;
      LfToCrlfAppend(a[1..], b);
    }
  }

  lemma {:induction false} IndexFinds(a: string, sub: string, b: string)
    requires sub != ""
    ensures Index(a + sub + b, sub) >= 0
    decreases |a|
  {
    if a == "" {
      assert a + sub + b == sub + b;
    } else {
      assert (a + sub + b)[1..] == a[1..] + sub + b;
      IndexFinds(a[1..], sub, b);
    }
  }

  lemma LfLfToBlankLine()
    ensures ReplaceAll("\n\n", "\n", "\r\n") == BLANK_LINE
  {
    LfToCrlfAppend("\n", "\n");
    assert "\n" + "\n" == "\n\n";
    assert "\n"[1..] == "";
    assert ReplaceAll("\n", "\n", "\r\n") == "\r\n" + "";
    assert "\r\n" + "\r\n" == BLANK_LINE;
  }

  /** The LF-only fallback always finds its separator again after normalizing. */
  lemma FallbackSeparator(raw: string)
    requires Index(raw, "\n\n") >= 0
    ensures Index(ReplaceAll(raw, "\n", "\r\n"), BLANK_LINE) >= 0
  {
    var i := Index(raw, "\n\n");
    var a, b := raw[..i], raw[i + 2..];
    assert raw == a + "\n\n" + b by { assert raw[i..][..2] == "\n\n"; }
    LfToCrlfAppend(a + "\n\n", b);
    LfToCrlfAppend(a, "\n\n");
    LfLfToBlankLine();
    IndexFinds(ReplaceAll(a, "\n", "\r\n"), BLANK_LINE, ReplaceAll(b, "\n", "\r\n"));
  }

  /** Header block and body, the fields in document order. */
  function SplitMessage(raw: string): Result<Message, Error> {
    if Index(raw, BLANK_LINE) < 0 && Index(raw, "\n\n") < 0 then Err(NoSeparator)
    else
      var text := if Index(raw, BLANK_LINE) >= 0 then raw else ReplaceAll(raw, "\n", "\r\n");
      assert Index(text, BLANK_LINE) >= 0 by { if Index(raw, BLANK_LINE) < 0 { FallbackSeparator(raw); } }
      var i := Index(text, BLANK_LINE);
      var fields := ReadBlock(text[..i]);
      if fields.Err? then Err(fields.error) else Ok(Message(fields.value, text[i + 4..]))
  }

  // ----- Iterating the header map -----

  function FieldsNamed(fields: seq<Field>, name: string): seq<Field> {
    if fields == [] then []
    else (if fields[0].name == name then [fields[0]] else []) + FieldsNamed(fields[1..], name)
  }

  function Grouped(fields: seq<Field>, order: seq<string>): seq<Field> {
    if order == [] then [] else FieldsNamed(fields, order[0]) + Grouped(fields, order[1..])
  }

  function Names(fields: seq<Field>): set<string> {
    set f | f in fields :: f.name
  }

  /** `order` lists every key of the header map once. */
  ghost predicate IsKeyOrder(fields: seq<Field>, order: seq<string>) {
    && (forall i, j :: 0 <= i < j < |order| ==> order[i] != order[j])
    && (forall k :: k in order <==> k in Names(fields))
  }

  // ----- Canonical headers -----

  function CanonValue(v: string): string {
    TrimSpace(Collapse(ReplaceAll(v, CRLF, ""), false)) + CRLF
  }

  method CanonRelaxedValue(value: string) returns (out: string)
    ensures out == CanonValue(value)
  {
    var v := ReplaceAll(value, CRLF, "");
    out := "";
    var prevWs := false;
    for i := 0 to |v|
      invariant out == Collapse(v[..i], false)
      invariant prevWs == (i > 0 && v[i - 1] in WSP)
    {
      CollapseSnoc(v[..i], v[i], false);
      assert v[..i + 1] == v[..i] + [v[i]];
      if v[i] in WSP {
        if !prevWs {
          out := out + " ";
        }
        prevWs := true;
      } else {
        prevWs := false;
        out := out + [v[i]];
      }
    }
    assert v[..|v|] == v;
    out := TrimSpace(out) + CRLF;
  }

  function ValuesFor(fields: seq<Field>, h: string): seq<string> {
    if fields == [] then []
    else (if ToLower(fields[0].name) == h then [fields[0].value] else []) + ValuesFor(fields[1..], h)
  }

  /** The last occurrence of one listed header, or nothing. */
  function LastOf(h: string, vs: seq<string>): string {
    if vs == [] then "" else h + ":" + CanonValue(vs[|vs| - 1])
  }

  function Piece(fields: seq<Field>, h: string): string {
    LastOf(h, ValuesFor(fields, h))
  }

  function Pieces(fields: seq<Field>, use: seq<string>): seq<string> {
    seq(|use|, i requires 0 <= i < |use| => Piece(fields, use[i]))
  }

  function CanonHeaders(fields: seq<Field>, use: seq<string>): string {
    Concat(Pieces(fields, use))
  }

  lemma {:induction false} ValuesForAppend(a: seq<Field>, b: seq<Field>, h: string)
    ensures ValuesFor(a + b, h) == ValuesFor(a, h) + ValuesFor(b, h)
  {
    if a == [] {
      assert a + b == b;
    } else {
      assert (a + b)[1..] == a[1..] + b;
      ValuesForAppend(a[1..], b, h);
    }
  }

  lemma ValuesForOne(f: Field, h: string)
    ensures ValuesFor([f], h) == if ToLower(f.name) == h then [f.value] else []
  {
    assert [f][1..] == [];
  }

  function ValuesIn(byName: map<string, seq<string>>, h: string): seq<string> {
    if h in byName then byName[h] else []
  }

  ghost predicate Groups(byName: map<string, seq<string>>, fields: seq<Field>) {
    forall h :: ValuesIn(byName, h) == ValuesFor(fields, h)
  }

  lemma GroupsSnoc(byName: map<string, seq<string>>, fields: seq<Field>, f: Field)
    requires Groups(byName, fields)
    ensures var k := ToLower(f.name); Groups(byName[k := ValuesIn(byName, k) + [f.value]], fields + [f])
  {
    var k := ToLower(f.name);
    var after := byName[k := ValuesIn(byName, k) + [f.value]];
    forall h ensures ValuesIn(after, h) == ValuesFor(fields + [f], h) {
      ValuesForAppend(fields, [f], h);
      ValuesForOne(f, h);
      assert ValuesIn(byName, h) == ValuesFor(fields, h);
    }
  }

  method GroupByName(fields: seq<Field>) returns (byName: map<string, seq<string>>)
    ensures Groups(byName, fields)
  {
    byName := map[];
    for i := 0 to |fields|
      invariant Groups(byName, fields[..i])
    {
      var k := ToLower(fields[i].name);
      assert fields[..i + 1] == fields[..i] + [fields[i]];
      GroupsSnoc(byName, fields[..i], fields[i]);
      byName := byName[k := ValuesIn(byName, k) + [fields[i].value]];
    }
    assert fields[..|fields|] == fields;
  }

  method CanonLast(h: string, vs: seq<string>) returns (out: string)
    ensures out == LastOf(h, vs)
  {
    out := "";
    if |vs| != 0 {
      var c := CanonRelaxedValue(vs[|vs| - 1]);
      out := h + ":" + c;
    }
  }

  lemma PiecesSnoc(fields: seq<Field>, use: seq<string>, i: nat)
    requires i < |use|
    ensures Concat(Pieces(fields, use)[..i + 1]) == Concat(Pieces(fields, use)[..i]) + Piece(fields, use[i])
  {
    var pieces := Pieces(fields, use);
    assert pieces[..i + 1] == pieces[..i] + [pieces[i]];
    ConcatSnoc(pieces[..i], pieces[i]);
  }

  method CanonHeadersRelaxed(fields: seq<Field>, use: seq<string>) returns (out: string)
    ensures out == CanonHeaders(fields, use)
  {
    var byName := GroupByName(fields);
    out := "";
    ghost var pieces := Pieces(fields, use);
    for i := 0 to |use|
      invariant out == Concat(pieces[..i])
    {
      var vs := ValuesIn(byName, use[i]);
      var p := CanonLast(use[i], vs);
      PiecesSnoc(fields, use, i);
      out := out + p;
    }
    assert pieces[..|use|] == pieces;
  }

  // ----- The order of the header map does not matter -----

  lemma {:induction false} CaseIsDecidedByLower(s: string, up: bool)
    ensures CanonCase(ToLower(s), up) == CanonCase(s, up) && ToLower(CanonCase(s, up)) == ToLower(s)
  {
    if s != "" {
      CaseIsDecidedByLower(s[1..], s[0] == '-');
      assert ToLower(s)[1..] == ToLower(s[1..]);
      assert CanonCase(s, up)[1..] == CanonCase(s[1..], s[0] == '-');
    }
  }

  lemma LowerKeepsSpaces(s: string)
    ensures ' ' in ToLower(s) <==> ' ' in s
  {
    assert forall i :: 0 <= i < |s| ==> (ToLower(s)[i] == ' ' <==> s[i] == ' ');
    if ' ' in s {
      var i :| 0 <= i < |s| && s[i] == ' ';
      assert ToLower(s)[i] == ' ';
    }
  }

  /** A name as the reader stores it. */
  predicate Stored(name: string) {
    ' ' in name || name == CanonCase(ToLower(name), true)
  }

  lemma CanonicalKeyIsStored(k: string)
    ensures CanonicalKey(k).Some? ==> Stored(CanonicalKey(k).value)
  {
    CaseIsDecidedByLower(k, true);
    CaseIsDecidedByLower(CanonCase(k, true), true);
    if k != "" {
      CanonCaseTwice(k, true);
    }
  }

  lemma {:induction false} CanonCaseTwice(s: string, up: bool)
    ensures CanonCase(CanonCase(s, up), up) == CanonCase(s, up)
  {
    if s != "" {
      CanonCaseTwice(s[1..], s[0] == '-');
      assert CanonCase(s, up)[1..] == CanonCase(s[1..], s[0] == '-');
    }
  }

  lemma {:induction false} ReadStores(lines: seq<string>)
    ensures ReadFields(lines).Ok? ==> forall f :: f in ReadFields(lines).value ==> Stored(f.name)
    decreases |lines|
  {
    if lines != [] && lines[0] != "" && ':' in lines[0] {
      var c := Continued(TrimWsp(lines[0]), lines[1..]);
      ReadStores(c.1);
      var colon := Index(c.0, ":");
      if colon >= 0 {
        CanonicalKeyIsStored(c.0[..colon]);
      }
    }
  }

  lemma FieldsNamedCons(fields: seq<Field>, name: string)
    requires fields != []
    ensures var rest := FieldsNamed(fields[1..], name);
            FieldsNamed(fields, name) == if fields[0].name == name then [fields[0]] + rest else rest
  {
  }

  lemma {:induction false} NamedValues(fields: seq<Field>, name: string, h: string)
    requires ToLower(name) != h
    ensures ValuesFor(FieldsNamed(fields, name), h) == []
  {
    if fields != [] {
      NamedValues(fields[1..], name, h);
      FieldsNamedCons(fields, name);
      ValuesForAppend([fields[0]], FieldsNamed(fields[1..], name), h);
      ValuesForOne(fields[0], h);
    }
  }

  /** If one stored key alone lowers to h, grouping by keys keeps h's values and their order. */
  lemma {:induction false} SoleKeyValues(fields: seq<Field>, key: string, h: string)
    requires ToLower(key) == h && forall f :: f in fields && ToLower(f.name) == h ==> f.name == key
    ensures ValuesFor(FieldsNamed(fields, key), h) == ValuesFor(fields, h)
  {
    if fields != [] {
      SoleKeyValues(fields[1..], key, h);
      assert fields[0] in fields;
      FieldsNamedCons(fields, key);
      ValuesForAppend([fields[0]], FieldsNamed(fields[1..], key), h);
      ValuesForOne(fields[0], h);
    }
  }

  lemma {:induction false} NoKeyValues(fields: seq<Field>, h: string)
    requires forall f :: f in fields ==> ToLower(f.name) != h
    ensures ValuesFor(fields, h) == []
  {
    if fields != [] {
      assert fields[0] in fields;
      NoKeyValues(fields[1..], h);
    }
  }

  lemma {:induction false} GroupedValues(fields: seq<Field>, order: seq<string>, key: string, h: string)
    requires ToLower(key) == h
    requires forall i, j :: 0 <= i < j < |order| ==> order[i] != order[j]
    requires forall k :: k in order && ToLower(k) == h ==> k == key
    ensures ValuesFor(Grouped(fields, order), h) == if key in order then ValuesFor(FieldsNamed(fields, key), h) else []
  {
    if order != [] {
      GroupedValues(fields, order[1..], key, h);
      ValuesForAppend(FieldsNamed(fields, order[0]), Grouped(fields, order[1..]), h);
      assert order[0] in order;
      if order[0] != key {
        NamedValues(fields, order[0], h);
      }
      assert order == [order[0]] + order[1..];
    }
  }

  /** Whatever order the header map is iterated in, a listed name without spaces finds the same values. */
  lemma OrderIsIrrelevant(fields: seq<Field>, order: seq<string>, h: string)
    requires IsKeyOrder(fields, order) && ' ' !in h
    requires forall f :: f in fields ==> Stored(f.name)
    ensures ValuesFor(Grouped(fields, order), h) == ValuesFor(fields, h)
  {
    forall k | Stored(k) && ToLower(k) == h ensures k == CanonCase(h, true) {
      LowerKeepsSpaces(k);
    }
    if exists k :: k in order && ToLower(k) == h {
      var key :| key in order && ToLower(key) == h;
      GroupedValues(fields, order, key, h);
      SoleKeyValues(fields, key, h);
    } else {
      forall f | f in fields ensures ToLower(f.name) != h {
        assert f.name in Names(fields);
      }
      NoKeyValues(fields, h);
      GroupedNone(fields, order, h);
    }
  }

  lemma {:induction false} GroupedNone(fields: seq<Field>, order: seq<string>, h: string)
    requires forall k :: k in order ==> ToLower(k) != h
    ensures ValuesFor(Grouped(fields, order), h) == []
  {
    if order != [] {
      assert order[0] in order;
      GroupedNone(fields, order[1..], h);
      ValuesForAppend(FieldsNamed(fields, order[0]), Grouped(fields, order[1..]), h);
      NamedValues(fields, order[0], h);
    }
  }

  lemma CanonHeadersOrder(fields: seq<Field>, order: seq<string>, use: seq<string>)
    requires IsKeyOrder(fields, order) && forall i :: 0 <= i < |use| ==> ' ' !in use[i]
    requires forall f :: f in fields ==> Stored(f.name)
    ensures CanonHeaders(Grouped(fields, order), use) == CanonHeaders(fields, use)
  {
    forall i | 0 <= i < |use| ensures Piece(Grouped(fields, order), use[i]) == Piece(fields, use[i]) {
      OrderIsIrrelevant(fields, order, use[i]);
    }
    assert Pieces(Grouped(fields, order), use) == Pieces(fields, use);
  }
}
