/** How an outgoing plaintext message is put on the wire: body lines dot-stuffed for SMTP
    (section 4.5.2 of RFC 5321) and attachments as wrapped base64 (section 6.8 of RFC 2045). */
module MailWire {
  import opened Common
  import opened Text
  import opened Base64

  const LINE_LIMIT: nat := 76

  // ----- Dot stuffing -----

  function TextLines(body: string): seq<string> {
    Split(ReplaceAll(body, "\r\n", "\n"), "\n")
  }

  function StuffLine(l: string): string {
    if l != "" && l[0] == '.' then "." + l else l
  }

  function Stuff(lines: seq<string>): seq<string> {
    seq(|lines|, i requires 0 <= i < |lines| => StuffLine(lines[i]))
  }

  method WriteBodyLines(body: string) returns (out: string)
    ensures out == Terminated(Stuff(TextLines(body)))
  {
    var lines := TextLines(body);
    out := "";
    for i := 0 to |lines|
      invariant out == Terminated(Stuff(lines[..i]))
    {
      assert Stuff(lines[..i + 1]) == Stuff(lines[..i]) + [StuffLine(lines[i])];
      TerminatedSnoc(Stuff(lines[..i]), StuffLine(lines[i]));
      if lines[i] != "" && lines[i][0] == '.' {
        out := out + ".";
      }
      out := out + lines[i];
      out := out + CRLF;
    }
    assert lines[..|lines|] == lines;
  }

  /** The receiving side: lines up to a lone dot, with a leading dot removed from each. */
  function Receive(lines: seq<string>): Option<seq<string>> {
    if lines == [] then None
    else if lines[0] == "." then Some([])
    else
      var rest := Receive(lines[1..]);
      var l := lines[0];
      if rest.None? then None else Some([if l != "" && l[0] == '.' then l[1..] else l] + rest.value)
  }

  /** The text with every CRLF read as LF, character by character. */
  function LfText(body: string): string {
    if body == "" then ""
    else if body[0] == CR && |body| > 1 && body[1] == LF then [LF] + LfText(body[2..])
    else [body[0]] + LfText(body[1..])
  }

  lemma {:induction false} CrlfReadAsLf(body: string)
    ensures ReplaceAll(body, "\r\n", "\n") == LfText(body)
    decreases |body|
  {
    StartsCrlf(body);
    if body != "" {
      if CRLF <= body {
        CrlfReadAsLf(body[2..]);
      } else {
        CrlfReadAsLf(body[1..]);
        assert body == [body[0]] + body[1..];
      }
    }
  }

  /** The lines sent are the lines of the text: joined by LF they give it back, and none contains one. */
  lemma LinesAreTheText(body: string)
    ensures Join(TextLines(body), "\n") == LfText(body)
    ensures forall i :: 0 <= i < |TextLines(body)| ==> LF !in TextLines(body)[i]
  {
    CrlfReadAsLf(body);
    JoinSplit(LfText(body), "\n");
    forall i | 0 <= i < |TextLines(body)| ensures LF !in TextLines(body)[i] {
      TextLinesHaveNoLf(body, i);
    }
  }

  lemma {:induction false} LfTextBreaks(a: string, b: string)
    ensures LfText(a + CRLF + b) == LfText(a) + "\n" + LfText(b)
    decreases |a|
  {
    var s := a + CRLF + b;
    if a == "" {
      assert s[2..] == b && s[0] == CR && s[1] == LF;
    } else if a[0] == CR && |a| > 1 && a[1] == LF {
      LfTextBreaks(a[2..], b);
      assert s[2..] == a[2..] + CRLF + b;
    } else {
      LfTextBreaks(a[1..], b);
      assert s[1..] == a[1..] + CRLF + b && s[0] == a[0];
      assert |a| == 1 ==> s[1] == CR;
    }
  }

  /** Every CRLF of the text ends a line. */
  lemma CrlfEndsLine(a: string, b: string)
    ensures TextLines(a + CRLF + b) == TextLines(a) + TextLines(b)
  {
    LfTextBreaks(a, b);
    CrlfReadAsLf(a + CRLF + b);
    CrlfReadAsLf(a);
    CrlfReadAsLf(b);
    SplitAppend(LfText(a), "\n", LfText(b));
  }

  lemma TextLinesHaveNoLf(body: string, i: nat)
    requires i < |TextLines(body)|
    ensures LF !in TextLines(body)[i]
  {
    PartsLackChar(ReplaceAll(body, "\r\n", "\n"), LF, i);
  }

  lemma {:induction false} PartsLackChar(s: string, c: char, i: nat)
    requires i < |Split(s, [c])|
    ensures c !in Split(s, [c])[i]
    decreases |s|
  {
    if s != "" {
      StartsChar(s, c);
      if [c] <= s {
        SplitAtSep(s, [c]);
        if i > 0 {
          PartsLackChar(s[1..], c, i - 1);
        }
      } else {
        SplitAtOther(s, [c]);
        PartsLackChar(s[1..], c, i);
      }
    }
  }

  lemma ReceiveLine(l: string, rest: seq<string>)
    requires Receive(rest).Some?
    ensures Receive([StuffLine(l)] + rest) == Some([l] + Receive(rest).value)
  {
    var all := [StuffLine(l)] + rest;
    assert all[1..] == rest;
    assert ("." + l)[1..] == l;
  }

  lemma {:induction false} ReceiveStuffed(lines: seq<string>, tail: seq<string>)
    requires tail != [] && tail[0] == "."
    ensures Receive(Stuff(lines) + tail) == Some(lines)
  {
    if lines == [] {
      assert Stuff(lines) + tail == tail;
    } else {
      ReceiveStuffed(lines[1..], tail);
      ReceiveLine(lines[0], Stuff(lines[1..]) + tail);
      assert Stuff(lines) + tail == [StuffLine(lines[0])] + (Stuff(lines[1..]) + tail);
      assert lines == [lines[0]] + lines[1..];
    }
  }

  lemma StuffedLines(body: string)
    ensures var stuffed := Stuff(TextLines(body));
            forall i :: 0 <= i < |stuffed| ==> Whole(stuffed[i], CRLF) && stuffed[i] != "."
  {
    var stuffed := Stuff(TextLines(body));
    forall i | 0 <= i < |stuffed| ensures Whole(stuffed[i], CRLF) && stuffed[i] != "." {
      TextLinesHaveNoLf(body, i);
      WholeWithout(stuffed[i], CRLF, 1);
    }
  }

  lemma WithLast(stuffed: seq<string>, dot: string)
    requires (forall i :: 0 <= i < |stuffed| ==> Whole(stuffed[i], CRLF)) && Whole(dot, CRLF)
    ensures Split(Terminated(stuffed) + dot + CRLF, CRLF) == stuffed + [dot] + [""]
  {
    var all := stuffed + [dot];
    forall i | 0 <= i < |all| ensures Whole(all[i], CRLF) {
    }
    SplitTerminated(all);
    TerminatedSnoc(stuffed, dot);
  }

  lemma DotIsWhole()
    ensures Whole(".", CRLF)
  {
    WholeWithout(".", CRLF, 1);
  }

  /** An SMTP receiver that splits at CRLF, stops at the lone dot and undoes the stuffing recovers
      exactly the lines of the text, and no line before the terminator is a lone dot. */
  lemma BodySurvivesSmtp(body: string)
    ensures var out := Terminated(Stuff(TextLines(body)));
            && Receive(Split(out + "." + CRLF, CRLF)) == Some(TextLines(body))
            && Join(TextLines(body), "\n") == LfText(body)
            && Split(out, CRLF) == Stuff(TextLines(body)) + [""]
            && "." !in Split(out, CRLF)
  {
    var stuffed := Stuff(TextLines(body));
    LinesAreTheText(body);
    StuffedLines(body);
    SplitTerminated(stuffed);
    DotIsWhole();
    WithLast(stuffed, ".");
    ReceiveStuffed(TextLines(body), ["."] + [""]);
    assert stuffed + ["."] + [""] == stuffed + (["."] + [""]);
  }

  // ----- Base64 lines -----

  function Wrap(s: string): seq<string> {
    if |s| > LINE_LIMIT then [s[..LINE_LIMIT]] + Wrap(s[LINE_LIMIT..]) else if s != "" then [s] else []
  }

  lemma WrapStep(written: seq<string>, s: string)
    requires |s| > LINE_LIMIT
    ensures written + Wrap(s) == (written + [s[..LINE_LIMIT]]) + Wrap(s[LINE_LIMIT..])
  {
  }

  method WriteBase64Lines(data: seq<Byte>) returns (out: string)
    ensures out == Terminated(Wrap(Encode(data)))
  {
    var encoded := Encode(data);
    out := "";
    ghost var written: seq<string> := [];
    while |encoded| > LINE_LIMIT
      invariant Wrap(Encode(data)) == written + Wrap(encoded)
      invariant out == Terminated(written)
    {
      TerminatedSnoc(written, encoded[..LINE_LIMIT]);
      WrapStep(written, encoded);
      written := written + [encoded[..LINE_LIMIT]];
      out := out + (encoded[..LINE_LIMIT] + CRLF);
      encoded := encoded[LINE_LIMIT..];
    }
    if encoded != "" {
      TerminatedSnoc(written, encoded);
      out := out + (encoded + CRLF);
    } else {
      assert written + [] == written;
    }
  }

  lemma {:induction false} WrapLines(s: string)
    ensures Concat(Wrap(s)) == s
    ensures forall i :: 0 <= i < |Wrap(s)| ==> 1 <= |Wrap(s)[i]| <= LINE_LIMIT
    ensures forall i :: 0 <= i < |Wrap(s)| - 1 ==> |Wrap(s)[i]| == LINE_LIMIT
    ensures forall i, c :: 0 <= i < |Wrap(s)| && c in Wrap(s)[i] ==> c in s
    decreases |s|
  {
    if |s| > LINE_LIMIT {
      WrapLines(s[LINE_LIMIT..]);
      assert ([s[..LINE_LIMIT]] + Wrap(s[LINE_LIMIT..]))[1..] == Wrap(s[LINE_LIMIT..]);
    }
  }

  /** The lines on the wire are at most 76 characters, and joining and decoding them gives the data back. */
  lemma Base64LinesDecode(data: seq<Byte>)
    ensures var parts := Split(Terminated(Wrap(Encode(data))), CRLF);
            var lines := parts[..|parts| - 1];
            && parts[|parts| - 1] == ""
            && (forall i :: 0 <= i < |lines| ==> 1 <= |lines[i]| <= 76)
            && (forall i :: 0 <= i < |lines| - 1 ==> |lines[i]| == 76)
            && Decode(Concat(lines)) == Some(data)
  {
    var lines := Wrap(Encode(data));
    WrapLines(Encode(data));
    WrappedWhole(data);
    SplitTerminated(lines);
    assert (lines + [""])[..|lines|] == lines;
    RoundTrip(data);
  }

  lemma WrappedWhole(data: seq<Byte>)
    ensures var lines := Wrap(Encode(data)); forall i :: 0 <= i < |lines| ==> Whole(lines[i], CRLF)
  {
    var lines := Wrap(Encode(data));
    WrapLines(Encode(data));
    if CR in Encode(data) {
      EncodeChars(data, CR);
    }
    forall i | 0 <= i < |lines| ensures Whole(lines[i], CRLF) {
      WholeWithout(lines[i], CRLF, 0);
    }
  }
}
