/** What a verifier recomputes from a signed message alone is what the signer digested.

    The verifier here follows the signer's own rules. The signer hashes the DKIM-Signature
    line with its trailing CRLF, which section 3.7 of RFC 6376 leaves off, so no agreement
    with that section is claimed. */
module DkimRecompute {
  import opened Common
  import opened Text
  import Base64
  import opened DkimBody
  import opened DkimHeaders
  import opened DkimTags
  import opened DkimSign

  function Lookup(parts: seq<string>, name: string): Option<string> {
    if parts == [] then None
    else if name + "=" <= parts[0] then Some(parts[0][|name| + 1..])
    else Lookup(parts[1..], name)
  }

  /** The tag list with the value of b= removed. */
  function Blank(parts: seq<string>): seq<string> {
    seq(|parts|, i requires 0 <= i < |parts| => if "b=" <= parts[i] then "b=" else parts[i])
  }

  datatype Checked = Checked(digestInput: string, body: string, bodyHash: string, sig: string)

  /** Re-splits a message, takes its first DKIM-Signature, and rebuilds the digested string from it. */
  function Recompute(signed: string): Option<Checked> {
    match SplitMessage(signed)
    case Err(_) => None
    case Ok(m) =>
      var vs := ValuesFor(m.fields, HEADER_KEY);
      if vs == [] then None
      else
        var parts := Split(vs[0], "; ");
        var h, bh, b := Lookup(parts, "h"), Lookup(parts, "bh"), Lookup(parts, "b");
        if h.None? || bh.None? || b.None? then None
        else
          Some(Checked(CanonHeaders(m.fields, Split(h.value, ":")) + HEADER_KEY + ":" + CanonValue(Join(Blank(parts), "; ")),
                       m.body, bh.value, b.value))
  }

  // ----- The options a tag list can carry -----

  predicate PlainChar(c: char) {
    ValueByte(c) && c != ';'
  }

  predicate PlainText(s: string) {
    forall i :: 0 <= i < |s| ==> PlainChar(s[i])
  }

  predicate PlainOptions(s: Signer, opt: Options) {
    && PlainText(opt.domain) && PlainText(opt.selector)
    && (Algo(s, opt) == RSA || Algo(s, opt) == ED25519)
    && forall i :: 0 <= i < |UseHeaders(opt)| ==> forall j :: 0 <= j < |UseHeaders(opt)[i]| ==> NameByte(UseHeaders(opt)[i][j])
  }

  lemma {:induction false} DigitsArePlain(n: nat)
    ensures PlainText(Digits(n))
  {
    if n >= 10 {
      DigitsArePlain(n / 10);
    }
  }

  lemma Base64IsPlain(d: seq<Base64.Byte>)
    ensures PlainText(Base64.Encode(d))
  {
    var e := Base64.Encode(d);
    forall i | 0 <= i < |e| ensures PlainChar(e[i]) {
      Base64.EncodeChars(d, e[i]);
    }
  }

  lemma HeaderListIsPlain(s: Signer, opt: Options)
    requires PlainOptions(s, opt)
    ensures PlainText(Join(UseHeaders(opt), ":"))
  {
    var use := UseHeaders(opt);
    var j := Join(use, ":");
    forall i | 0 <= i < |j| ensures PlainChar(j[i]) {
      JoinChars(use, ":", j[i]);
      if j[i] != ':' {
        var k :| 0 <= k < |use| && j[i] in use[k];
        var l :| 0 <= l < |use[k]| && use[k][l] == j[i];
        assert NameByte(use[k][l]);
      }
    }
  }

  lemma ValueIsPlain(s: Signer, opt: Options, bodyHash: string, sig: string, k: Key)
    requires PlainOptions(s, opt) && PlainText(bodyHash) && PlainText(sig)
    ensures PlainText(Value(s, opt, bodyHash, sig, k))
  {
    match k
    case T =>
      var n := Unix(opt.now);
      DigitsArePlain(if n < 0 then -n else n);
    case X =>
      var n := Unix(opt.now + opt.expiresIn);
      DigitsArePlain(if n < 0 then -n else n);
    case H => HeaderListIsPlain(s, opt);
    case _ =>
  }

  // ----- The parts of a tag list -----

  /** Known tags with plain values, each listed key valued. */
  ghost predicate PlainTags(keys: seq<Key>, vals: map<Key, string>) {
    forall k :: k in keys ==> k in vals && !k.Other? && PlainText(vals[k])
  }

  lemma NameIsPlain(k: Key)
    requires !k.Other?
    ensures PlainText(Name(k)) && '=' !in Name(k)
  {
  }

  lemma TagIsPlain(k: Key, v: string)
    requires !k.Other? && PlainText(v)
    ensures PlainText(Tag(k, v))
  {
    NameIsPlain(k);
  }

  lemma RenderedSplits(keys: seq<Key>, vals: map<Key, string>)
    requires PlainTags(keys, vals) && keys != []
    ensures Split(Render(keys, vals), "; ") == TagParts(keys, vals)
    ensures forall c :: c in Render(keys, vals) ==> ValueByte(c)
  {
    var parts := TagParts(keys, vals);
    forall i | 0 <= i < |parts| ensures PlainText(parts[i]) && Whole(parts[i], "; ") {
      assert keys[i] in keys;
      TagIsPlain(keys[i], vals[keys[i]]);
      WholeWithout(parts[i], "; ", 0);
    }
    SplitJoin(parts, "; ");
    forall c | c in Join(parts, "; ") ensures ValueByte(c) {
      JoinChars(parts, "; ", c);
      if c !in "; " {
        var i :| 0 <= i < |parts| && c in parts[i];
        assert PlainText(parts[i]);
      }
    }
  }

  // ----- Reading tags back -----

  lemma EqualsPrefix(a: string, b: string, v: string)
    requires '=' !in a && '=' !in b
    ensures a + "=" <= b + "=" + v <==> a == b
    ensures (b + "=" + v)[|b| + 1..] == v
  {
    var p, t := a + "=", b + "=" + v;
    if a == b {
      assert t == p + v;
    }
    if p <= t {
      assert p[|a|] == '=' && t[|b|] == '=' && forall i :: 0 <= i < |p| ==> p[i] == t[i];
      assert (forall i :: 0 <= i < |a| ==> p[i] == a[i]) && (forall i :: 0 <= i < |b| ==> t[i] == b[i]);
      assert a == p[..|a|] == t[..|b|] == b;
    }
  }

  lemma NamesDiffer(k: Key, l: Key)
    requires !k.Other? && !l.Other?
    ensures Name(k) == Name(l) <==> k == l
  {
    if |Name(k)| == 1 && |Name(l)| == 1 {
      assert Name(k)[0] == Name(l)[0] <==> k == l;
    }
  }

  lemma TagPrefix(k: Key, l: Key, v: string)
    requires !k.Other? && !l.Other?
    ensures Name(k) + "=" <= Tag(l, v) <==> k == l
    ensures Tag(l, v)[|Name(l)| + 1..] == v
  {
    NameIsPlain(k);
    NameIsPlain(l);
    NamesDiffer(k, l);
    EqualsPrefix(Name(k), Name(l), v);
  }

  lemma {:induction false} LookupFinds(keys: seq<Key>, vals: map<Key, string>, k: Key)
    requires (forall l :: l in keys ==> l in vals && !l.Other?) && k in keys
    ensures Lookup(TagParts(keys, vals), Name(k)) == Some(vals[k])
  {
    assert keys[0] in keys;
    TagPrefix(k, keys[0], vals[keys[0]]);
    if keys[0] != k {
      LookupFinds(keys[1..], vals, k);
      assert TagParts(keys, vals)[1..] == TagParts(keys[1..], vals);
    }
  }

  lemma BlankPart(k: Key, v: string)
    requires !k.Other?
    ensures (if "b=" <= Tag(k, v) then "b=" else Tag(k, v)) == Tag(k, if k == B then "" else v)
  {
    TagPrefix(B, k, v);
    assert Name(B) + "=" == "b=" && Tag(B, "") == "b=";
  }

  lemma BlankTags(keys: seq<Key>, vals: map<Key, string>)
    requires forall k :: k in keys ==> k in vals && !k.Other?
    ensures Blank(TagParts(keys, vals)) == TagParts(keys, vals[B := ""])
  {
    forall i | 0 <= i < |keys|
      ensures Blank(TagParts(keys, vals))[i] == TagParts(keys, vals[B := ""])[i]
    {
      assert keys[i] in keys;
      BlankPart(keys[i], vals[keys[i]]);
    }
  }

  // ----- The printed tag list of a signature -----

  lemma SignerTagsArePlain(s: Signer, opt: Options, body: string, sig: seq<Base64.Byte>)
    requires PlainOptions(s, opt)
    ensures PlainTags(PrintKeys(opt), Vals(s, opt, BodyHash(s, body), Base64.Encode(sig)))
  {
    var hash, b := BodyHash(s, body), Base64.Encode(sig);
    Base64IsPlain(sig);
    Base64IsPlain(s.hash(Hashed(body)));
    KeysAreListed(opt);
    forall k | k in PrintKeys(opt)
      ensures k in Vals(s, opt, hash, b) && !k.Other? && PlainText(Vals(s, opt, hash, b)[k])
    {
      TagIsKnown(s, opt, hash, b, k);
    }
  }

  lemma TagIsKnown(s: Signer, opt: Options, bodyHash: string, sig: string, k: Key)
    requires PlainOptions(s, opt) && PlainText(bodyHash) && PlainText(sig) && k in KeySet(opt)
    ensures k in Vals(s, opt, bodyHash, sig) && !k.Other? && PlainText(Vals(s, opt, bodyHash, sig)[k])
  {
    ValueIsPlain(s, opt, bodyHash, sig, k);
  }

  lemma RenderStarts(keys: seq<Key>, vals: map<Key, string>)
    requires keys != [] && forall k :: k in keys ==> k in vals
    ensures Tag(keys[0], vals[keys[0]]) <= Render(keys, vals)
  {
    var parts := TagParts(keys, vals);
    if |parts| > 1 {
      assert Join(parts, "; ") == parts[0] + ("; " + Join(parts[1..], "; "));
    }
  }

  lemma SignatureTagEnds(sig: seq<Base64.Byte>)
    ensures var t := Tag(B, Base64.Encode(sig)); t != "" && t[|t| - 1] !in WSP
  {
    var e := Base64.Encode(sig);
    if e != "" {
      Base64.EncodeChars(sig, e[|e| - 1]);
    }
  }

  lemma RenderEnds(front: seq<Key>, vals: map<Key, string>, sig: seq<Base64.Byte>)
    requires B in vals && vals[B] == Base64.Encode(sig) && forall k :: k in front ==> k in vals
    ensures var t := Render(front + [B], vals); t != "" && t[|t| - 1] !in WSP
  {
    RenderSnoc(front, B, vals);
    SignatureTagEnds(sig);
    LastOfAppend(if front == [] then "" else Render(front, vals) + "; ", Tag(B, vals[B]));
  }

  lemma LastOfAppend(a: string, t: string)
    requires t != ""
    ensures (a + t)[|a + t| - 1] == t[|t| - 1]
  {
  }

  lemma EndsOf(keys: seq<Key>, vals: map<Key, string>, sig: seq<Base64.Byte>)
    requires keys != [] && keys[0] == V && keys[|keys| - 1] == B
    requires (forall k :: k in keys ==> k in vals) && vals[B] == Base64.Encode(sig)
    ensures var t := Render(keys, vals); t != "" && t[0] == 'v' && t[|t| - 1] !in WSP
  {
    RenderStarts(keys, vals);
    assert Tag(V, vals[V])[0] == 'v';
    var front := keys[..|keys| - 1];
    assert keys == front + [B];
    RenderEnds(front, vals, sig);
  }

  lemma SignerKeys(s: Signer, opt: Options, bodyHash: string, sig: string)
    ensures forall k :: k in PrintKeys(opt) ==> k in Vals(s, opt, bodyHash, sig)
  {
    KeysAreListed(opt);
    ValsKeys(s, opt, bodyHash, sig);
  }

  /** The printed list starts with v and does not end in a blank. */
  lemma TagTextEnds(s: Signer, opt: Options, body: string, sig: seq<Base64.Byte>)
    ensures var t := TagText(s, opt, body, Base64.Encode(sig)); t != "" && t[0] == 'v' && t[|t| - 1] !in WSP
  {
    SignerKeys(s, opt, BodyHash(s, body), Base64.Encode(sig));
    ValsKeys(s, opt, BodyHash(s, body), Base64.Encode(sig));
    KeyEnds(opt);
    EndsOf(PrintKeys(opt), Vals(s, opt, BodyHash(s, body), Base64.Encode(sig)), sig);
  }

  // ----- Splitting the signed message -----

  function SignatureLine(header: string): string {
    HEADER + ": " + header
  }

  lemma SignatureLineIsPlain(header: string)
    requires forall c :: c in header ==> ValueByte(c)
    ensures forall c :: c in SignatureLine(header) ==> ValueByte(c)
  {
    assert forall i :: 0 <= i < |HEADER| ==> ValueByte(HEADER[i]);
    assert ValueByte(':') && ValueByte(' ');
  }

  lemma BlankLineStart(s: string)
    ensures BLANK_LINE <= s <==> |s| >= 4 && s[0] == CR && s[1] == LF && s[2] == CR && s[3] == LF
  {
    if |s| >= 4 && s[0] == CR && s[1] == LF && s[2] == CR && s[3] == LF {
      assert s[..4] == BLANK_LINE;
    }
  }

  /** The header block now also holds the signature line, unless the message opened with a line break. */
  lemma SeparatorMoves(line: string, raw: string)
    requires CR !in line && Index(raw, BLANK_LINE) >= 0
    ensures Index(line + CRLF + raw, BLANK_LINE) ==
            if CRLF <= raw then |line| else |line| + 2 + Index(raw, BLANK_LINE)
  {
    var text := line + CRLF + raw;
    forall k | 0 <= k < |line| ensures !(BLANK_LINE <= text[k..]) {
      BlankLineStart(text[k..]);
      assert text[k..][0] == line[k];
      assert line[k] in line;
    }
    StartsCrlf(raw);
    if CRLF <= raw {
      assert text == line + (CRLF + raw);
      BlankLineStart(CRLF + raw);
      IndexAfter(line, CRLF + raw, BLANK_LINE);
    } else {
      var p := line + CRLF;
      forall k | 0 <= k < |p| ensures !(BLANK_LINE <= (p + raw)[k..]) {
        assert p + raw == text;
        if k >= |line| {
          BlankLineStart(text[k..]);
          if k == |line| && |raw| >= 2 {
            assert text[k..][2] == raw[0] && text[k..][3] == raw[1];
          } else if k == |line| + 1 {
            assert text[k..][0] == LF;
          }
        }
      }
      IndexAfter(p, raw, BLANK_LINE);
    }
  }

  lemma DropCrsCons(l: string, rest: seq<string>)
    ensures DropCrs([l] + rest) == [DropCr(l)] + DropCrs(rest)
  {
  }

  lemma LinesPrepended(line: string, block: string)
    requires LF !in line && CR !in line
    ensures DropCrs(Split((line + CRLF + block) + BLANK_LINE, "\n")) == [line] + DropCrs(Split(block + BLANK_LINE, "\n"))
  {
    var text := block + BLANK_LINE;
    var first := line + [CR];
    assert (line + CRLF + block) + BLANK_LINE == first + "\n" + text;
    SplitAppend(first, "\n", text);
    WholeWithout(first, "\n", 0);
    DropCrsCons(first, Split(text, "\n"));
    assert DropCr(first) == line;
  }

  /** A line that no continuation follows is one field. */
  lemma ReadOneMore(line: string, lines: seq<string>, f: Field)
    requires lines != [] && (lines[0] != "" ==> lines[0][0] !in WSP)
    requires line != "" && line[0] !in WSP && line[|line| - 1] !in WSP && ':' in line && ParseField(line) == Ok(f)
    requires ReadFields(lines).Ok?
    ensures ReadFields([line] + lines) == Ok([f] + ReadFields(lines).value)
  {
    assert TrimWsp(line) == line;
    assert Continued(line, lines) == (line, lines);
    assert ([line] + lines)[1..] == lines;
  }

  lemma FirstLineStart(text: string)
    requires text != "" && text[0] !in WSP
    ensures var lines := DropCrs(Split(text, "\n")); lines != [] && (lines[0] != "" ==> lines[0][0] !in WSP)
  {
    FirstPart(text, "\n");
    var parts := Split(text, "\n");
    assert DropCrs(parts)[0] == DropCr(parts[0]);
  }

  /** One more line in front of a readable block adds one field in front of its fields. */
  lemma ReadPrepended(line: string, block: string, f: Field)
    requires ReadBlock(block).Ok? && LF !in line && CR !in line
    requires line != "" && line[0] !in WSP && line[|line| - 1] !in WSP && ':' in line
    requires ParseField(line) == Ok(f)
    ensures ReadBlock(line + CRLF + block) == Ok([f] + ReadBlock(block).value)
  {
    var text := block + BLANK_LINE;
    LinesPrepended(line, block);
    FirstLineStart(text);
    ReadOneMore(line, DropCrs(Split(text, "\n")), f);
    assert ((line + CRLF + block) + BLANK_LINE)[0] == line[0];
  }

  lemma PlainKey(k: string)
    requires k != "" && forall i :: 0 <= i < |k| ==> NameByte(k[i])
    ensures CanonicalKey(k).Some? && ToLower(CanonicalKey(k).value) == ToLower(k)
    ensures ':' !in k
  {
    CaseIsDecidedByLower(k, true);
    assert ' ' !in k;
  }

  lemma HeaderNameBytes()
    ensures |HEADER| == 14 && forall i :: 0 <= i < |HEADER| ==> NameByte(HEADER[i])
  {
  }

  lemma HeaderKeyIsLower()
    ensures ToLower(HEADER) == HEADER_KEY
  {
  }

  lemma HeaderNameLowers()
    ensures CanonicalKey(HEADER).Some? && ToLower(CanonicalKey(HEADER).value) == HEADER_KEY
    ensures |HEADER| == 14 && ':' !in HEADER
  {
    HeaderNameBytes();
    HeaderKeyIsLower();
    PlainKey(HEADER);
  }

  lemma SignatureField(header: string)
    requires header != "" && header[0] !in WSP && forall c :: c in header ==> ValueByte(c)
    ensures var r := ParseField(SignatureLine(header));
            r.Ok? && ToLower(r.value.name) == HEADER_KEY && r.value.value == header
  {
    HeaderNameLowers();
    var line := SignatureLine(header);
    assert line == HEADER + ":" + (" " + header);
    forall k | 0 <= k < |HEADER| ensures !(":" <= line[k..]) {
      StartsChar(line[k..], ':');
      assert line[k..][0] == HEADER[k];
      assert HEADER[k] in HEADER;
    }
    IndexOf(HEADER, ":", " " + header);
    var v := " " + header;
    assert line[..|HEADER|] == HEADER && line[|HEADER| + 1..] == v;
    assert v[1..] == header;
    assert TrimLeft(header, WSP) == header;
    assert v[0] in WSP && TrimLeft(v, WSP) == TrimLeft(v[1..], WSP);
    forall i | 0 <= i < |v| ensures ValueByte(v[i]) {
      if i > 0 {
        assert v[i] == header[i - 1] && header[i - 1] in header;
      }
    }
  }

  /** A message with a blank line splits there. */
  lemma SplitAtBlankLine(block: string, body: string)
    requires Index(block + BLANK_LINE + body, BLANK_LINE) == |block|
    ensures var fields := ReadBlock(block);
            SplitMessage(block + BLANK_LINE + body) == if fields.Ok? then Ok(Message(fields.value, body)) else Err(fields.error)
  {
    var raw := block + BLANK_LINE + body;
    assert raw[..|block|] == block && raw[|block| + 4..] == body;
  }

  lemma CutAt(raw: string, sep: string, i: nat)
    requires i + |sep| <= |raw| && sep <= raw[i..]
    ensures raw == raw[..i] + sep + raw[i + |sep|..]
  {
    assert raw[i..i + |sep|] == sep;
  }

  lemma CutAtBlankLine(raw: string) returns (block: string, body: string)
    requires Index(raw, BLANK_LINE) >= 0
    ensures raw == block + BLANK_LINE + body && Index(raw, BLANK_LINE) == |block|
  {
    var i := Index(raw, BLANK_LINE);
    CutAt(raw, BLANK_LINE, i);
    block, body := raw[..i], raw[i + |BLANK_LINE|..];
  }

  /** Splitting a signed message gives the signature field, then the fields of the message, and its body. */
  lemma SignedSplits(header: string, raw: string, m: Message) returns (f: Field)
    requires Index(raw, BLANK_LINE) >= 0 && !(CRLF <= raw) && SplitMessage(raw) == Ok(m)
    requires header != "" && header[0] !in WSP && header[|header| - 1] !in WSP
    requires forall c :: c in header ==> ValueByte(c)
    ensures SplitMessage(Prepend(header, raw)) == Ok(Message([f] + m.fields, m.body))
    ensures ToLower(f.name) == HEADER_KEY && f.value == header
  {
    var line := SignatureLine(header);
    SignatureField(header);
    f := ParseField(line).value;
    var block, body := CutAtBlankLine(raw);
    SplitAtBlankLine(block, body);
    assert ReadBlock(block).Ok? && m == Message(ReadBlock(block).value, body);
    SignedBlock(header, block, f);
    PrependedIndex(header, block, body);
    SplitAtBlankLine(line + CRLF + block, body);
  }

  lemma PrependedIndex(header: string, block: string, body: string)
    requires forall c :: c in header ==> ValueByte(c)
    requires Index(block + BLANK_LINE + body, BLANK_LINE) == |block| && !(CRLF <= block + BLANK_LINE + body)
    ensures var longer := SignatureLine(header) + CRLF + block;
            && Prepend(header, block + BLANK_LINE + body) == longer + BLANK_LINE + body
            && Index(longer + BLANK_LINE + body, BLANK_LINE) == |longer|
  {
    var line, raw := SignatureLine(header), block + BLANK_LINE + body;
    SignatureLineIsPlain(header);
    SeparatorMoves(line, raw);
    Reassociate(line, block, body);
  }

  lemma Reassociate(line: string, block: string, body: string)
    ensures line + CRLF + (block + BLANK_LINE + body) == (line + CRLF + block) + BLANK_LINE + body
  {
  }

  lemma SignedBlock(header: string, block: string, f: Field)
    requires ReadBlock(block).Ok? && ParseField(SignatureLine(header)) == Ok(f)
    requires header != "" && header[|header| - 1] !in WSP && forall c :: c in header ==> ValueByte(c)
    ensures ReadBlock(SignatureLine(header) + CRLF + block) == Ok([f] + ReadBlock(block).value)
  {
    var line := SignatureLine(header);
    SignatureLineIsPlain(header);
    HeaderNameLowers();
    assert line[|HEADER|] == ':' && line[0] == 'D' && line[|line| - 1] == header[|header| - 1];
    ReadPrepended(line, block, f);
  }

  // ----- Canonical headers with one more signature in front -----

  lemma ExtraSignature(f: Field, fields: seq<Field>, h: string)
    requires ToLower(f.name) == HEADER_KEY
    ensures ValuesFor([f] + fields, h) == (if h == HEADER_KEY then [f.value] else []) + ValuesFor(fields, h)
    ensures h != HEADER_KEY || ValuesFor(fields, h) != [] ==> Piece([f] + fields, h) == Piece(fields, h)
    ensures |Piece(fields, h)| <= |Piece([f] + fields, h)|
    ensures h == HEADER_KEY && ValuesFor(fields, h) == [] ==> |Piece(fields, h)| < |Piece([f] + fields, h)|
  {
    ValuesForAppend([f], fields, h);
    ValuesForOne(f, h);
  }

  lemma {:induction false} ConcatLonger(a: seq<string>, b: seq<string>)
    requires |a| == |b| && forall i :: 0 <= i < |a| ==> |a[i]| <= |b[i]|
    ensures |Concat(a)| <= |Concat(b)|
    ensures (exists i :: 0 <= i < |a| && |a[i]| < |b[i]|) ==> |Concat(a)| < |Concat(b)|
  {
    if a != [] {
      ConcatLonger(a[1..], b[1..]);
      if i :| 0 < i < |a| && |a[i]| < |b[i]| {
        assert |a[1..][i - 1]| < |b[1..][i - 1]|;
      }
    }
  }

  lemma CanonWithSignature(f: Field, fields: seq<Field>, use: seq<string>)
    requires ToLower(f.name) == HEADER_KEY
    ensures CanonHeaders([f] + fields, use) == CanonHeaders(fields, use)
            <==> HEADER_KEY !in use || ValuesFor(fields, HEADER_KEY) != []
  {
    var a, b := Pieces(fields, use), Pieces([f] + fields, use);
    forall i | 0 <= i < |use|
      ensures |a[i]| <= |b[i]|
      ensures use[i] != HEADER_KEY || ValuesFor(fields, HEADER_KEY) != [] ==> a[i] == b[i]
      ensures use[i] == HEADER_KEY && ValuesFor(fields, HEADER_KEY) == [] ==> |a[i]| < |b[i]|
    {
      ExtraSignature(f, fields, use[i]);
    }
    if HEADER_KEY in use && ValuesFor(fields, HEADER_KEY) == [] {
      var i :| 0 <= i < |use| && use[i] == HEADER_KEY;
      ConcatLonger(a, b);
    } else {
      assert a == b;
    }
  }

  // ----- The main result -----

  /** From a signed CRLF message alone, a verifier recovers the body and its recorded hash and the
      signature, and rebuilds exactly the string that was digested, whatever order the signer's header map
      was iterated in. The one exception is a signature that lists dkim-signature itself when the message
      carried none before: then, and only then, the rebuilt string differs. */
  lemma VerifierRebuildsDigestInput(s: Signer, opt: Options, raw: string, m: Message, order: seq<string>)
    requires Index(raw, BLANK_LINE) >= 0 && !(CRLF <= raw) && SplitMessage(raw) == Ok(m)
    requires PlainOptions(s, opt) && IsKeyOrder(m.fields, order)
    requires SignWith(s, opt, Message(Grouped(m.fields, order), m.body)).Ok?
    ensures var asSeen := Message(Grouped(m.fields, order), m.body);
            var header := SignWith(s, opt, asSeen).value;
            var digested := DigestInput(s, opt, asSeen);
            var r := Recompute(Prepend(header, raw));
            && r.Some?
            && r.value.body == m.body
            && r.value.bodyHash == Base64.Encode(s.hash(Hashed(m.body)))
            && r.value.sig == Base64.Encode(s.sign(Algo(s, opt), s.hash(digested)).value)
            && (r.value.digestInput == digested
                <==> HEADER_KEY !in UseHeaders(opt) || ValuesFor(m.fields, HEADER_KEY) != [])
  {
    var asSeen := Message(Grouped(m.fields, order), m.body);
    var use := UseHeaders(opt);
    var sig := s.sign(Algo(s, opt), s.hash(DigestInput(s, opt, asSeen))).value;
    var f := Rebuilt(s, opt, raw, m, sig);
    CanonWithSignature(f, m.fields, use);
    OrderOfSigning(opt, raw, m, order, s);
    DigestsAgree(CanonHeaders([f] + m.fields, use), CanonHeaders(m.fields, use), CanonValue(TagText(s, opt, m.body, "")));
  }

  /** What the verifier makes of a message with this signature in front. */
  lemma Rebuilt(s: Signer, opt: Options, raw: string, m: Message, sig: seq<Base64.Byte>) returns (f: Field)
    requires Index(raw, BLANK_LINE) >= 0 && !(CRLF <= raw) && SplitMessage(raw) == Ok(m) && PlainOptions(s, opt)
    ensures ToLower(f.name) == HEADER_KEY
    ensures Recompute(Prepend(TagText(s, opt, m.body, Base64.Encode(sig)), raw)) ==
            Some(Checked(CanonHeaders([f] + m.fields, UseHeaders(opt)) + HEADER_KEY + ":" + CanonValue(TagText(s, opt, m.body, "")),
                         m.body, BodyHash(s, m.body), Base64.Encode(sig)))
  {
    var header := TagText(s, opt, m.body, Base64.Encode(sig));
    HeaderFacts(s, opt, m.body, sig);
    TagTextEnds(s, opt, m.body, sig);
    HeaderListSplits(s, opt);
    f := SignedSplits(header, raw, m);
    RecomputeOf(Prepend(header, raw), f, m, UseHeaders(opt));
  }

  /** The verifier's result, once the split and the tags are known. */
  lemma RecomputeOf(signed: string, f: Field, m: Message, use: seq<string>)
    requires SplitMessage(signed) == Ok(Message([f] + m.fields, m.body)) && ToLower(f.name) == HEADER_KEY
    requires var parts := Split(f.value, "; ");
             Lookup(parts, "h").Some? && Lookup(parts, "bh").Some? && Lookup(parts, "b").Some?
             && Split(Lookup(parts, "h").value, ":") == use
    ensures var parts := Split(f.value, "; ");
            Recompute(signed) ==
            Some(Checked(CanonHeaders([f] + m.fields, use) + HEADER_KEY + ":" + CanonValue(Join(Blank(parts), "; ")),
                         m.body, Lookup(parts, "bh").value, Lookup(parts, "b").value))
  {
    ExtraSignature(f, m.fields, HEADER_KEY);
  }

  lemma DigestsAgree(a: string, b: string, blank: string)
    ensures a + HEADER_KEY + ":" + blank == b + HEADER_KEY + ":" + blank <==> a == b
  {
    var t := HEADER_KEY + ":" + blank;
    SameSuffix(a, b, t);
    assert a + HEADER_KEY + ":" + blank == a + t;
    assert b + HEADER_KEY + ":" + blank == b + t;
  }

  lemma SameSuffix(a: string, b: string, t: string)
    ensures a + t == b + t <==> a == b
  {
    if a + t == b + t {
      assert a == (a + t)[..|a|] && b == (b + t)[..|b|];
    }
  }

  lemma HeaderSplits(s: Signer, opt: Options, body: string, sig: seq<Base64.Byte>)
    requires PlainOptions(s, opt)
    ensures var header := TagText(s, opt, body, Base64.Encode(sig));
            && (forall c :: c in header ==> ValueByte(c))
            && PlainTags(PrintKeys(opt), Vals(s, opt, BodyHash(s, body), Base64.Encode(sig)))
            && Split(header, "; ") == TagParts(PrintKeys(opt), Vals(s, opt, BodyHash(s, body), Base64.Encode(sig)))
  {
    SignerTagsArePlain(s, opt, body, sig);
    RenderedSplits(PrintKeys(opt), Vals(s, opt, BodyHash(s, body), Base64.Encode(sig)));
  }

  /** The parts a verifier reads out of the signature header. */
  lemma HeaderFacts(s: Signer, opt: Options, body: string, sig: seq<Base64.Byte>)
    requires PlainOptions(s, opt)
    ensures var header := TagText(s, opt, body, Base64.Encode(sig));
            var parts := Split(header, "; ");
            && (forall c :: c in header ==> ValueByte(c))
            && Lookup(parts, "h") == Some(Join(UseHeaders(opt), ":"))
            && Lookup(parts, "bh") == Some(BodyHash(s, body))
            && Lookup(parts, "b") == Some(Base64.Encode(sig))
            && Join(Blank(parts), "; ") == TagText(s, opt, body, "")
  {
    HeaderSplits(s, opt, body, sig);
    ReadBack(s, opt, BodyHash(s, body), Base64.Encode(sig));
    BlankedTags(s, opt, body, Base64.Encode(sig));
  }

  lemma ReadBackTag(s: Signer, opt: Options, bodyHash: string, sig: string, k: Key)
    requires PlainTags(PrintKeys(opt), Vals(s, opt, bodyHash, sig)) && k in KeySet(opt)
    ensures Lookup(TagParts(PrintKeys(opt), Vals(s, opt, bodyHash, sig)), Name(k)) == Some(Value(s, opt, bodyHash, sig, k))
  {
    KeysAreListed(opt);
    LookupFinds(PrintKeys(opt), Vals(s, opt, bodyHash, sig), k);
  }

  lemma ReadBack(s: Signer, opt: Options, bodyHash: string, sig: string)
    requires PlainTags(PrintKeys(opt), Vals(s, opt, bodyHash, sig))
    ensures var parts := TagParts(PrintKeys(opt), Vals(s, opt, bodyHash, sig));
            && Lookup(parts, "h") == Some(Join(UseHeaders(opt), ":"))
            && Lookup(parts, "bh") == Some(bodyHash) && Lookup(parts, "b") == Some(sig)
  {
    ReadBackTag(s, opt, bodyHash, sig, H);
    ReadBackTag(s, opt, bodyHash, sig, BH);
    ReadBackTag(s, opt, bodyHash, sig, B);
  }

  lemma BlankRender(keys: seq<Key>, vals: map<Key, string>, blank: map<Key, string>)
    requires (forall k :: k in keys ==> k in vals && !k.Other?) && blank == vals[B := ""]
    ensures Join(Blank(TagParts(keys, vals)), "; ") == Render(keys, blank)
  {
    BlankTags(keys, vals);
  }

  lemma BlankVals(s: Signer, opt: Options, bodyHash: string, sig: string)
    ensures Vals(s, opt, bodyHash, "") == Vals(s, opt, bodyHash, sig)[B := ""]
  {
    ValsWithSignature(s, opt, bodyHash, sig);
    ValsKeys(s, opt, bodyHash, "");
  }

  lemma BlankedTags(s: Signer, opt: Options, body: string, sig: string)
    requires PlainTags(PrintKeys(opt), Vals(s, opt, BodyHash(s, body), sig))
    ensures Join(Blank(TagParts(PrintKeys(opt), Vals(s, opt, BodyHash(s, body), sig))), "; ") == TagText(s, opt, body, "")
  {
    var hash := BodyHash(s, body);
    BlankVals(s, opt, hash, sig);
    BlankRender(PrintKeys(opt), Vals(s, opt, hash, sig), Vals(s, opt, hash, ""));
  }

  lemma HeaderListSplits(s: Signer, opt: Options)
    requires PlainOptions(s, opt)
    ensures Split(Join(UseHeaders(opt), ":"), ":") == UseHeaders(opt)
  {
    var use := UseHeaders(opt);
    forall i | 0 <= i < |use| ensures Whole(use[i], ":") {
      assert ':' !in use[i];
      WholeWithout(use[i], ":", 0);
    }
    SplitJoin(use, ":");
  }

  lemma OrderOfSigning(opt: Options, raw: string, m: Message, order: seq<string>, s: Signer)
    requires SplitMessage(raw) == Ok(m) && IsKeyOrder(m.fields, order) && PlainOptions(s, opt)
    ensures CanonHeaders(Grouped(m.fields, order), UseHeaders(opt)) == CanonHeaders(m.fields, UseHeaders(opt))
  {
    var text := if Index(raw, BLANK_LINE) >= 0 then raw else ReplaceAll(raw, "\n", "\r\n");
    if Index(raw, BLANK_LINE) < 0 {
      FallbackSeparator(raw);
    }
    ReadStores(DropCrs(Split(text[..Index(text, BLANK_LINE)] + BLANK_LINE, "\n")));
    forall i | 0 <= i < |UseHeaders(opt)| ensures ' ' !in UseHeaders(opt)[i] {
    }
    CanonHeadersOrder(m.fields, order, UseHeaders(opt));
  }

  /** A message that opens with a line break loses its header block to the signature: the signed
      message splits at that break, and its body is no longer the one that was hashed. */
  lemma LeadingBreakBreaksBody(header: string, raw: string)
    requires Index(raw, BLANK_LINE) >= 0 && CRLF <= raw && SplitMessage(raw).Ok?
    requires forall c :: c in header ==> ValueByte(c)
    ensures var r := SplitMessage(Prepend(header, raw)); r.Ok? ==> r.value.body != SplitMessage(raw).value.body
  {
    var block, body := CutAtBlankLine(raw);
    SplitAtBlankLine(block, body);
    LeadingBreakMoves(header, raw);
    SplitAtBlankLine(SignatureLine(header), raw[2..]);
    assert |raw| == |block| + 4 + |body|;
  }

  lemma LeadingBreakMoves(header: string, raw: string)
    requires Index(raw, BLANK_LINE) >= 0 && CRLF <= raw && forall c :: c in header ==> ValueByte(c)
    ensures Prepend(header, raw) == SignatureLine(header) + BLANK_LINE + raw[2..]
    ensures Index(SignatureLine(header) + BLANK_LINE + raw[2..], BLANK_LINE) == |SignatureLine(header)|
  {
    var line := SignatureLine(header);
    SignatureLineIsPlain(header);
    SeparatorMoves(line, raw);
    assert raw == CRLF + raw[2..];
    DoubleBreak(line, raw[2..]);
  }

  lemma DoubleBreak(line: string, rest: string)
    ensures line + CRLF + (CRLF + rest) == line + BLANK_LINE + rest
  {
    assert CRLF + CRLF == BLANK_LINE;
  }
}
