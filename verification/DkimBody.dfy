/** Relaxed body canonicalization of the DKIM signer, against section 3.4.4 of RFC 6376.
    A body is a sequence of characters, one per byte. */
module DkimBody {
  import opened Text

  // ----- What the code computes -----

  /** Collapses runs of spaces and tabs to one space; `prevWs` says the last character was one. */
  function Collapse(s: string, prevWs: bool): string {
    if s == "" then ""
    else if s[0] in WSP then (if prevWs then "" else " ") + Collapse(s[1..], true)
    else [s[0]] + Collapse(s[1..], false)
  }

  function CanonLine(line: string): string {
    TrimRight(Collapse(line, false), WSP)
  }

  function CanonLines(lines: seq<string>): seq<string> {
    seq(|lines|, i requires 0 <= i < |lines| => CanonLine(lines[i]))
  }

  function Normalize(body: string): string {
    ReplaceAll(ReplaceAll(body, "\n", "\r\n"), "\r\r\n", "\r\n")
  }

  /** The string whose SHA-256 is the body hash, up to its final CRLF. */
  function Inked(body: string): string {
    TrimRight(Join(CanonLines(Split(Normalize(body), CRLF)), CRLF), {CR, LF})
  }

  function Hashed(body: string): string {
    if Inked(body) == "" then "" else Inked(body) + CRLF
  }

  lemma {:induction false} CollapseSnoc(s: string, c: char, p: bool)
    ensures Collapse(s + [c], p) ==
            Collapse(s, p) + (if c !in WSP then [c]
                              else if (if s == "" then p else s[|s| - 1] in WSP) then "" else " ")
    decreases |s|
  {
    if s == "" {
      assert s + [c] == [c];
    } else {
      assert (s + [c])[1..] == s[1..] + [c];
      CollapseSnoc(s[1..], c, s[0] in WSP);
    }
  }

  method CanonRelaxedBodyLine(line: string) returns (out: string)
    ensures out == CanonLine(line)
  {
    out := "";
    var prevWs := false;
    for i := 0 to |line|
      invariant out == Collapse(line[..i], false)
      invariant prevWs == (i > 0 && line[i - 1] in WSP)
    {
      CollapseSnoc(line[..i], line[i], false);
      assert line[..i + 1] == line[..i] + [line[i]];
      if line[i] in WSP {
        if !prevWs {
          out := out + " ";
        }
        prevWs := true;
      } else {
        prevWs := false;
        out := out + [line[i]];
      }
    }
    assert line[..|line|] == line;
    out := TrimRight(out, WSP);
  }

  method CanonicalBody(body: string) returns (canon: string)
    ensures canon == Hashed(body)
  {
    var text := ReplaceAll(body, "\n", "\r\n");
    text := ReplaceAll(text, "\r\r\n", "\r\n");
    var parts := Split(text, CRLF);
    var lines := new string[|parts|](i requires 0 <= i < |parts| => parts[i]);
    for i := 0 to lines.Length
      invariant forall j :: 0 <= j < i ==> lines[j] == CanonLine(parts[j])
      invariant forall j :: i <= j < lines.Length ==> lines[j] == parts[j]
    {
      lines[i] := CanonRelaxedBodyLine(lines[i]);
    }
    assert lines[..] == CanonLines(parts);
    canon := TrimRight(Join(lines[..], CRLF), {CR, LF});
    if |canon| > 0 {
      canon := canon + CRLF;
    }
  }

  // ----- The declarative form -----

  /** The body with every bare LF read as CRLF. */
  function FixBareLf(s: string, afterCr: bool): string {
    if s == "" then ""
    else (if s[0] == LF && !afterCr then CRLF else [s[0]]) + FixBareLf(s[1..], s[0] == CR)
  }

  function BodyLines(body: string): seq<string> {
    Split(FixBareLf(body, false), CRLF)
  }

  /** The maximal runs of characters other than space and tab. */
  function Words(s: string): seq<string> {
    if s == "" then []
    else if s[0] in WSP then Words(s[1..])
    else if |s| == 1 || s[1] in WSP || Words(s[1..]) == [] then [[s[0]]] + Words(s[1..])
    else [[s[0]] + Words(s[1..])[0]] + Words(s[1..])[1..]
  }

  /** A line's words one space apart, after one space if the line was indented. */
  function RelaxedLine(line: string): string {
    if Words(line) == [] then ""
    else (if line[0] in WSP then " " else "") + Join(Words(line), " ")
  }

  function RelaxedLines(lines: seq<string>): seq<string> {
    seq(|lines|, i requires 0 <= i < |lines| => RelaxedLine(lines[i]))
  }

  function DropEmptyTail(lines: seq<string>): seq<string> {
    if lines != [] && lines[|lines| - 1] == "" then DropEmptyTail(lines[..|lines| - 1]) else lines
  }

  /** Section 3.4.4: relax every line, drop the empty lines at the end, end every line with CRLF. */
  function Relaxed(body: string): string {
    Terminated(DropEmptyTail(RelaxedLines(BodyLines(body))))
  }

  // ----- The two replacements only repair bare LF -----

  function Crlf1(s: string): string {
    ReplaceAll(s, "\n", "\r\n")
  }

  function Crlf2(s: string): string {
    ReplaceAll(s, "\r\r\n", "\r\n")
  }

  lemma Crlf1Step(s: string)
    requires s != ""
    ensures Crlf1(s) == (if s[0] == LF then CRLF else [s[0]]) + Crlf1(s[1..])
    ensures Crlf1(s)[0] != LF
  {
  }

  lemma Crlf2Skip(c: char, s: string)
    requires c != CR || |s| < 2 || s[0] != CR || s[1] != LF
    ensures Crlf2([c] + s) == [c] + Crlf2(s)
  {
    var x := [c] + s;
    assert x[1..] == s;
    if |x| >= 3 {
      assert x[0] == c && x[1] == s[0] && x[2] == s[1];
      assert x[..3] != "\r\r\n" by { assert x[..3][0] == c && x[..3][1] == s[0] && x[..3][2] == s[1]; }
    }
  }

  lemma {:induction false} NormalizeFixesBareLf(s: string)
    ensures Normalize(s) == FixBareLf(s, false)
    ensures s != "" && s[0] != LF ==> FixBareLf(s, true) == FixBareLf(s, false)
    decreases |s|
  {
    if s != "" {
      Crlf1Step(s);
      var t := s[1..];
      NormalizeFixesBareLf(t);
      var rest := Crlf1(t);
      if s[0] == LF {
        Crlf2Skip(LF, rest);
        Crlf2Skip(CR, [LF] + rest);
        assert Crlf1(s) == [CR] + ([LF] + rest);
      } else if s[0] == CR && t != "" && t[0] == LF {
        Crlf1Step(t);
        NormalizeFixesBareLf(t[1..]);
        var tail := Crlf1(t[1..]);
        assert Crlf1(s) == "\r\r\n" + tail;
        assert ("\r\r\n" + tail)[3..] == tail;
        assert Crlf2(Crlf1(s)) == "\r\n" + Crlf2(tail);
        assert FixBareLf(s, false) == [CR] + ([LF] + FixBareLf(t[1..], false));
      } else {
        if t != "" {
          Crlf1Step(t);
          if |t| > 1 {
            Crlf1Step(t[1..]);
          }
        }
        assert Crlf1(s) == [s[0]] + rest;
        Crlf2Skip(s[0], rest);
      }
    }
  }
}
