/** Reading a message that was written field by field, with folded lines (section 2.2.3 of RFC 5322):
    the header reader gives the fields back. */
module DkimReading {
  import opened Common
  import opened Text
  import opened DkimHeaders
  import opened DkimRecompute

  /** A field as it is written: its name, the first line of its value, and the lines it continues on,
      each behind the same blanks. */
  datatype Written = Written(name: string, first: string, more: seq<string>, indent: string)

  /** A stretch of a value: not empty, no blank at either end, no line break. */
  predicate Piece(s: string) {
    s != "" && s[0] !in WSP && s[|s| - 1] !in WSP && forall i :: 0 <= i < |s| ==> ValueByte(s[i])
  }

  predicate NameText(s: string) {
    s != "" && forall i :: 0 <= i < |s| ==> NameByte(s[i])
  }

  predicate Proper(w: Written) {
    && NameText(w.name) && Piece(w.first) && (forall i :: 0 <= i < |w.more| ==> Piece(w.more[i]))
    && w.indent != "" && All(w.indent, WSP)
  }

  function Start(w: Written): string {
    w.name + ": " + w.first
  }

  function Indented(indent: string, more: seq<string>): seq<string> {
    seq(|more|, i requires 0 <= i < |more| => indent + more[i])
  }

  /** The lines of a field on the wire. */
  function LinesOf(w: Written): seq<string> {
    [Start(w)] + Indented(w.indent, w.more)
  }

  function AllLines(ws: seq<Written>): seq<string> {
    if ws == [] then [] else LinesOf(ws[0]) + AllLines(ws[1..])
  }

  /** What the reader should make of it: the canonical name, and the stretches one space apart. */
  function AsField(w: Written): Field {
    Field(CanonCase(w.name, true), Join([w.first] + w.more, " "))
  }

  function AsFields(ws: seq<Written>): seq<Field> {
    seq(|ws|, i requires 0 <= i < |ws| => AsField(ws[i]))
  }

  // ----- Continuation lines -----

  lemma TrimIndented(indent: string, p: string)
    requires All(indent, WSP) && Piece(p)
    ensures TrimWsp(indent + p) == p
  {
    TrimLeftAppend(indent, p, WSP);
    TrimLeftAll(indent, WSP);
    assert TrimLeft(p, WSP) == p;
  }

  /** The pieces after the first, each behind one space. */
  function Tail(more: seq<string>): string {
    if more == [] then "" else " " + more[0] + Tail(more[1..])
  }

  lemma {:induction false} TailIsJoin(first: string, more: seq<string>)
    ensures first + Tail(more) == Join([first] + more, " ")
    decreases |more|
  {
    if more != [] {
      TailIsJoin(more[0], more[1..]);
      assert more == [more[0]] + more[1..];
      JoinCons(first, more, " ");
    }
  }

  predicate NoIndent(lines: seq<string>) {
    lines != [] && lines[0] != "" ==> lines[0][0] !in WSP
  }

  lemma {:induction false} ContinuedReads(acc: string, indent: string, more: seq<string>, rest: seq<string>)
    requires indent != "" && All(indent, WSP) && (forall i :: 0 <= i < |more| ==> Piece(more[i])) && NoIndent(rest)
    ensures Continued(acc, Indented(indent, more) + rest) == (acc + Tail(more), rest)
    decreases |more|
  {
    var lines := Indented(indent, more) + rest;
    if more == [] {
      assert lines == rest && acc + "" == acc;
    } else {
      TrimIndented(indent, more[0]);
      assert lines[0] == indent + more[0] && lines[0][0] == indent[0];
      assert lines[1..] == Indented(indent, more[1..]) + rest;
      ContinuedReads(acc + " " + more[0], indent, more[1..], rest);
      assert (acc + " " + more[0]) + Tail(more[1..]) == acc + (" " + more[0] + Tail(more[1..]));
    }
  }

  // ----- One field -----

  lemma ColonSplits(name: string, v: string)
    requires NameText(name)
    ensures Index(name + ":" + v, ":") == |name|
  {
    var kv := name + ":" + v;
    forall k | 0 <= k < |name| ensures !(":" <= kv[k..]) {
      StartsChar(kv[k..], ':');
      assert kv[k..][0] == name[k];
    }
    IndexOf(name, ":", v);
  }

  lemma NameIsKept(name: string)
    requires NameText(name)
    ensures CanonicalKey(name) == Some(CanonCase(name, true))
  {
  }

  lemma FieldParses(name: string, v: string)
    requires NameText(name) && Piece(v)
    ensures ParseField(name + ": " + v) == Ok(Field(CanonCase(name, true), v))
  {
    var kv := name + ": " + v;
    assert kv == name + ":" + (" " + v);
    ColonSplits(name, " " + v);
    NameIsKept(name);
    var value := kv[|name| + 1..];
    assert value == " " + v && kv[..|name|] == name;
    SpaceThenPiece(v);
  }

  lemma SpaceThenPiece(v: string)
    requires Piece(v)
    ensures TrimLeft(" " + v, WSP) == v && forall i :: 0 <= i < |" " + v| ==> ValueByte((" " + v)[i])
  {
    assert (" " + v)[1..] == v;
    assert TrimLeft(v, WSP) == v;
  }

  lemma PiecesJoin(a: string, b: string)
    requires Piece(a) && Piece(b)
    ensures Piece(a + " " + b)
  {
    var s := a + " " + b;
    forall i | 0 <= i < |s| ensures ValueByte(s[i]) {
      if i < |a| {
        assert s[i] == a[i];
      } else if i > |a| {
        assert s[i] == b[i - |a| - 1];
      }
    }
  }

  lemma {:induction false} JoinedIsPiece(first: string, more: seq<string>)
    requires Piece(first) && forall i :: 0 <= i < |more| ==> Piece(more[i])
    ensures Piece(first + Tail(more))
    decreases |more|
  {
    if more == [] {
      assert first + "" == first;
    } else {
      JoinedIsPiece(more[0], more[1..]);
      var rest := more[0] + Tail(more[1..]);
      PiecesJoin(first, rest);
      assert first + Tail(more) == first + " " + rest;
    }
  }

  lemma StartIsPlain(w: Written)
    requires Proper(w)
    ensures Piece(Start(w)) && ':' in Start(w) && TrimWsp(Start(w)) == Start(w)
  {
    var s := Start(w);
    assert s[|w.name|] == ':';
    assert s[0] == w.name[0] && s[|s| - 1] == w.first[|w.first| - 1];
    forall i | 0 <= i < |s| ensures ValueByte(s[i]) {
      if i < |w.name| {
        assert s[i] == w.name[i];
      } else if i >= |w.name| + 2 {
        assert s[i] == w.first[i - |w.name| - 2];
      }
    }
  }

  lemma ReadCons(lines: seq<string>, kv: string, rest: seq<string>, f: Field)
    requires lines != [] && lines[0] != "" && ':' in lines[0]
    requires Continued(TrimWsp(lines[0]), lines[1..]) == (kv, rest) && ParseField(kv) == Ok(f)
    ensures ReadFields(lines) == var tail := ReadFields(rest); if tail.Err? then tail else Ok([f] + tail.value)
  {
  }

  lemma WholeFieldParses(w: Written)
    requires Proper(w)
    ensures ParseField(Start(w) + Tail(w.more)) == Ok(AsField(w))
  {
    var value := w.first + Tail(w.more);
    assert Start(w) + Tail(w.more) == w.name + ": " + value;
    JoinedIsPiece(w.first, w.more);
    FieldParses(w.name, value);
    TailIsJoin(w.first, w.more);
  }

  lemma FieldContinues(w: Written, rest: seq<string>, lines: seq<string>)
    requires Proper(w) && NoIndent(rest) && lines == LinesOf(w) + rest
    ensures lines != [] && lines[0] != "" && ':' in lines[0]
    ensures Continued(TrimWsp(lines[0]), lines[1..]) == (Start(w) + Tail(w.more), rest)
  {
    StartIsPlain(w);
    assert lines[0] == Start(w) && lines[1..] == Indented(w.indent, w.more) + rest;
    ContinuedReads(Start(w), w.indent, w.more, rest);
  }

  /** A folded field is read as one field, its continuation lines kept. */
  lemma FieldReads(w: Written, rest: seq<string>, lines: seq<string>)
    requires Proper(w) && NoIndent(rest) && lines == LinesOf(w) + rest
    ensures ReadFields(lines) == var tail := ReadFields(rest); if tail.Err? then tail else Ok([AsField(w)] + tail.value)
  {
    FieldContinues(w, rest, lines);
    WholeFieldParses(w);
    ReadCons(lines, Start(w) + Tail(w.more), rest, AsField(w));
  }

  lemma NextField(ws: seq<Written>, rest: seq<string>)
    requires (forall i :: 0 <= i < |ws| ==> Proper(ws[i])) && NoIndent(rest)
    ensures NoIndent(AllLines(ws) + rest)
  {
    if ws != [] {
      StartIsPlain(ws[0]);
      assert (AllLines(ws) + rest)[0] == Start(ws[0]);
    } else {
      assert AllLines(ws) + rest == rest;
    }
  }

  lemma LinesRegroup(a: seq<string>, b: seq<string>, c: seq<string>)
    ensures (a + b) + c == a + (b + c)
  {
  }

  lemma AsFieldsCons(ws: seq<Written>)
    requires ws != []
    ensures AsFields(ws) == [AsField(ws[0])] + AsFields(ws[1..])
  {
  }

  lemma {:induction false} FieldsRead(ws: seq<Written>, rest: seq<string>)
    requires (forall i :: 0 <= i < |ws| ==> Proper(ws[i])) && rest != [] && rest[0] == ""
    ensures ReadFields(AllLines(ws) + rest) == Ok(AsFields(ws))
    decreases |ws|
  {
    if ws == [] {
      assert AllLines(ws) + rest == rest && AsFields(ws) == [];
    } else {
      FieldsRead(ws[1..], rest);
      NextField(ws[1..], rest);
      LinesRegroup(LinesOf(ws[0]), AllLines(ws[1..]), rest);
      FieldReads(ws[0], AllLines(ws[1..]) + rest, AllLines(ws) + rest);
      AsFieldsCons(ws);
    }
  }

  // ----- The text of the message -----

  /** A line of a header block. */
  predicate HeaderLine(l: string) {
    l != "" && forall i :: 0 <= i < |l| ==> ValueByte(l[i])
  }

  lemma {:induction false} LinesAreHeaderLines(ws: seq<Written>)
    requires forall i :: 0 <= i < |ws| ==> Proper(ws[i])
    ensures forall i :: 0 <= i < |AllLines(ws)| ==> HeaderLine(AllLines(ws)[i])
  {
    if ws != [] {
      LinesAreHeaderLines(ws[1..]);
      var w := ws[0];
      StartIsPlain(w);
      forall i | 0 <= i < |w.more| ensures HeaderLine(w.indent + w.more[i]) {
        assert Piece(w.more[i]);
      }
    }
  }

  lemma HeaderLineChars(l: string)
    requires HeaderLine(l)
    ensures CR !in l && LF !in l
  {
  }

  lemma {:induction false} BlockLines(lines: seq<string>, rest: string)
    requires forall i :: 0 <= i < |lines| ==> HeaderLine(lines[i])
    ensures DropCrs(Split(Terminated(lines) + rest, "\n")) == lines + DropCrs(Split(rest, "\n"))
  {
    if lines == [] {
      assert Terminated(lines) + rest == rest;
      assert lines + DropCrs(Split(rest, "\n")) == DropCrs(Split(rest, "\n"));
    } else {
      BlockLines(lines[1..], rest);
      var l, tail := lines[0], Terminated(lines[1..]) + rest;
      HeaderLineChars(l);
      LineSplits(l, tail);
      LineFirst(l, Terminated(lines[1..]), rest);
      LinesRegroup([l], lines[1..], DropCrs(Split(rest, "\n")));
      assert lines == [l] + lines[1..];
    }
  }

  lemma LineFirst(l: string, t: string, rest: string)
    ensures (l + CRLF + t) + rest == (l + [CR]) + "\n" + (t + rest)
  {
  }

  lemma LineSplits(l: string, tail: string)
    requires CR !in l && LF !in l
    ensures DropCrs(Split((l + [CR]) + "\n" + tail, "\n")) == [l] + DropCrs(Split(tail, "\n"))
  {
    SplitAppend(l + [CR], "\n", tail);
    WholeWithout(l + [CR], "\n", 0);
    DropCrsCons(l + [CR], Split(tail, "\n"));
    assert DropCr(l + [CR]) == l;
  }

  lemma BlankEnd()
    ensures DropCrs(Split("\r\n", "\n")) == ["", ""]
  {
    LineSplits("", "");
    assert ("" + [CR]) + "\n" + "" == "\r\n";
    assert Split("", "\n") == [""];
    assert DropCrs([""]) == [""];
  }

  lemma BlockReads(ws: seq<Written>)
    requires ws != [] && forall i :: 0 <= i < |ws| ==> Proper(ws[i])
    ensures ReadBlock(Join(AllLines(ws), CRLF)) == Ok(AsFields(ws))
  {
    var lines := AllLines(ws);
    var text := Join(lines, CRLF) + BLANK_LINE;
    LinesAreHeaderLines(ws);
    StartIsPlain(ws[0]);
    TerminatedIsJoin(lines);
    BlankIsTwoBreaks(Join(lines, CRLF));
    BlockLines(lines, "\r\n");
    BlankEnd();
    FieldsRead(ws, ["", ""]);
    assert lines[0] == Start(ws[0]);
    assert Terminated(lines)[0] == lines[0][0];
  }

  lemma BlankIsTwoBreaks(j: string)
    ensures j + BLANK_LINE == (j + CRLF) + "\r\n"
  {
  }

  /** The blank line after the last header line is the first one. */
  lemma {:induction false} SeparatorIsFirst(lines: seq<string>, body: string)
    requires lines != [] && forall i :: 0 <= i < |lines| ==> HeaderLine(lines[i])
    ensures Index(Join(lines, CRLF) + BLANK_LINE + body, BLANK_LINE) == |Join(lines, CRLF)|
    ensures !(CRLF <= Join(lines, CRLF) + BLANK_LINE + body)
  {
    var l := lines[0];
    var raw := Join(lines, CRLF) + BLANK_LINE + body;
    HeaderLineChars(l);
    StartsCrlf(raw);
    assert raw[0] == l[0];
    if |lines| == 1 {
      LineThenBlank(l, body);
    } else {
      var rest := Join(lines[1..], CRLF) + BLANK_LINE + body;
      SeparatorIsFirst(lines[1..], body);
      SeparatorMoves(l, rest);
      JoinedFurther(l, Join(lines[1..], CRLF), body);
    }
  }

  lemma JoinedFurther(l: string, j: string, body: string)
    ensures (l + CRLF + j) + BLANK_LINE + body == l + CRLF + (j + BLANK_LINE + body)
  {
  }

  lemma LineThenBlank(l: string, body: string)
    requires CR !in l
    ensures Index(l + BLANK_LINE + body, BLANK_LINE) == |l|
  {
    var t := BLANK_LINE + body;
    var raw := l + t;
    assert raw == l + BLANK_LINE + body;
    forall k | 0 <= k < |l| ensures !(BLANK_LINE <= raw[k..]) {
      BlankLineStart(raw[k..]);
      assert raw[k..][0] == l[k] && l[k] in l;
    }
    IndexAfter(l, t, BLANK_LINE);
    assert t[..4] == BLANK_LINE;
  }

  /** Round trip: a message written with any proper fields, folded as they please, is split into exactly
      those fields, in order, and its body. */
  lemma WrittenMessageReads(ws: seq<Written>, body: string)
    requires ws != [] && forall i :: 0 <= i < |ws| ==> Proper(ws[i])
    ensures SplitMessage(Join(AllLines(ws), CRLF) + BLANK_LINE + body) == Ok(Message(AsFields(ws), body))
  {
    LinesAreHeaderLines(ws);
    assert AllLines(ws)[0] == Start(ws[0]);
    SeparatorIsFirst(AllLines(ws), body);
    BlockReads(ws);
    SplitAtBlankLine(Join(AllLines(ws), CRLF), body);
  }

  // ----- LF messages and refusals -----

  lemma {:induction false} LfJoin(lines: seq<string>)
    requires lines != [] && forall i :: 0 <= i < |lines| ==> HeaderLine(lines[i])
    ensures ReplaceAll(Join(lines, "\n"), "\n", "\r\n") == Join(lines, CRLF)
  {
    HeaderLineChars(lines[0]);
    NoLfNoChange(lines[0]);
    if |lines| > 1 {
      LfJoin(lines[1..]);
      LfToCrlfAppend(lines[0] + "\n", Join(lines[1..], "\n"));
      LfToCrlfAppend(lines[0], "\n");
      LfAlone();
    }
  }

  lemma LfAlone()
    ensures ReplaceAll("\n", "\n", "\r\n") == "\r\n"
  {
    assert "\n"[1..] == "";
    assert ReplaceAll("\n", "\n", "\r\n") == "\r\n" + "";
  }

  lemma {:induction false} NoLfNoChange(l: string)
    requires LF !in l
    ensures ReplaceAll(l, "\n", "\r\n") == l
  {
    if l != "" {
      StartsChar(l, LF);
      assert l[0] in l;
      NoLfNoChange(l[1..]);
    }
  }

  lemma LfMessageText(lines: seq<string>, body: string)
    requires lines != [] && forall i :: 0 <= i < |lines| ==> HeaderLine(lines[i])
    ensures ReplaceAll(Join(lines, "\n") + "\n\n" + body, "\n", "\r\n") ==
            Join(lines, CRLF) + BLANK_LINE + ReplaceAll(body, "\n", "\r\n")
  {
    LfToCrlfAppend(Join(lines, "\n") + "\n\n", body);
    LfToCrlfAppend(Join(lines, "\n"), "\n\n");
    LfJoin(lines);
    LfLfToBlankLine();
  }

  /** The same for a message with LF line ends; its body comes out with CRLF. */
  lemma LfMessageReads(ws: seq<Written>, body: string)
    requires ws != [] && forall i :: 0 <= i < |ws| ==> Proper(ws[i])
    requires Index(Join(AllLines(ws), "\n") + "\n\n" + body, BLANK_LINE) < 0
    ensures SplitMessage(Join(AllLines(ws), "\n") + "\n\n" + body) ==
            Ok(Message(AsFields(ws), ReplaceAll(body, "\n", "\r\n")))
  {
    var raw := Join(AllLines(ws), "\n") + "\n\n" + body;
    LinesAreHeaderLines(ws);
    assert AllLines(ws)[0] == Start(ws[0]);
    LfMessageText(AllLines(ws), body);
    IndexFinds(Join(AllLines(ws), "\n"), "\n\n", body);
    WrittenMessageReads(ws, ReplaceAll(body, "\n", "\r\n"));
    FallbackIsNormalized(raw);
    SeparatorIsFirst(AllLines(ws), ReplaceAll(body, "\n", "\r\n"));
  }

  lemma FallbackIsNormalized(raw: string)
    requires Index(raw, BLANK_LINE) < 0 && Index(raw, "\n\n") >= 0
    ensures SplitMessage(raw) == SplitMessage(ReplaceAll(raw, "\n", "\r\n"))
  {
    FallbackSeparator(raw);
  }

  /** Without either separator there is no message. */
  lemma NoSeparatorIff(raw: string)
    ensures SplitMessage(raw) == Err(NoSeparator) <==> Index(raw, BLANK_LINE) < 0 && Index(raw, "\n\n") < 0
  {
    if Index(raw, BLANK_LINE) >= 0 {
      BlockErr(raw[..Index(raw, BLANK_LINE)]);
    } else if Index(raw, "\n\n") >= 0 {
      FallbackSeparator(raw);
      var text := ReplaceAll(raw, "\n", "\r\n");
      BlockErr(text[..Index(text, BLANK_LINE)]);
    }
  }

  lemma BlockErr(block: string)
    ensures ReadBlock(block).Err? ==> ReadBlock(block).error == Malformed
  {
    LinesErr(DropCrs(Split(block + BLANK_LINE, "\n")));
  }

  lemma {:induction false} LinesErr(lines: seq<string>)
    ensures ReadFields(lines).Err? ==> ReadFields(lines).error == Malformed
    decreases |lines|
  {
    if lines != [] && lines[0] != "" && ':' in lines[0] {
      LinesErr(Continued(TrimWsp(lines[0]), lines[1..]).1);
    }
  }

  /** A field is refused for a name with a character that is neither a token character (section 5.6.2 of
      RFC 9110) nor a space, for an empty name, and for a control character in its value. */
  lemma BadFieldIsRefused(name: string, v: string)
    requires ':' !in name
    requires name == "" || (exists i :: 0 <= i < |name| && !NameByte(name[i]) && name[i] != ' ')
             || (exists i :: 0 <= i < |v| && (v[i] < ' ' || v[i] == '\U{7F}') && v[i] != '\t')
    ensures ParseField(name + ":" + v) == Err(Malformed)
  {
    var kv := name + ":" + v;
    forall k | 0 <= k < |name| ensures !(":" <= kv[k..]) {
      StartsChar(kv[k..], ':');
      assert kv[k..][0] == name[k] && name[k] in name;
    }
    IndexOf(name, ":", v);
    assert kv[..|name|] == name && kv[|name| + 1..] == v;
    if i :| 0 <= i < |v| && (v[i] < ' ' || v[i] == '\U{7F}') && v[i] != '\t' {
      assert !ValueByte(v[i]);
    }
  }

  /** Token characters: visible ASCII less the delimiters. */
  lemma TokenChars(c: char)
    ensures NameByte(c) <==> '!' <= c <= '~' && c !in {'"', '(', ')', ',', '/', ':', ';', '<', '=', '>', '?', '@', '[', '\\', ']', '{', '}'}
  {
  }

  /** Stored names have a capital at the start and after each hyphen, and small letters elsewhere. */
  lemma {:induction false} CanonCaseAt(s: string, up: bool, i: nat)
    requires i < |s|
    ensures |CanonCase(s, up)| == |s|
    ensures var raised := if i == 0 then up else s[i - 1] == '-';
            var c := CanonCase(s, up)[i];
            if raised then !('a' <= c <= 'z') && ToLower([c]) == ToLower([s[i]])
            else c == LowerChar(s[i])
    decreases |s|
  {
    if i > 0 {
      CanonCaseAt(s[1..], s[0] == '-', i - 1);
    } else if |s| > 1 {
      CanonCaseAt(s[1..], s[0] == '-', 0);
    }
  }
}
