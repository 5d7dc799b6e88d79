/** Laws of relaxed body canonicalization: agreement with section 3.4.4 of RFC 6376,
    idempotence, and what it ignores. */
module DkimBodyLaws {
  import opened Text
  import opened DkimBody

  // ----- One line -----

  /** What the collapsed line looks like once trimmed. */
  function Spaced(s: string, p: bool): string {
    if Words(s) == [] then "" else (if s[0] in WSP && !p then " " else "") + Join(Words(s), " ")
  }

  lemma NothingBefore(s: string)
    ensures "" + s == s
  {
  }

  lemma SpacedInk(s: string)
    requires s != "" && s[0] !in WSP
    ensures Spaced(s, false) == [s[0]] + Spaced(s[1..], false) == Spaced(s, true)
  {
    var t := s[1..];
    var w := Words(t);
    NothingBefore(Join(Words(s), " "));
    if w == [] {
      assert Words(s) == [[s[0]]];
    } else if t[0] in WSP {
      assert Words(s) == [[s[0]]] + w;
      JoinCons([s[0]], w, " ");
    } else {
      assert Words(s) == [[s[0]] + w[0]] + w[1..];
      JoinHead(s[0], w, " ");
      NothingBefore(Join(w, " "));
    }
  }

  lemma SpacedBlank(s: string, p: bool)
    requires s != "" && s[0] in WSP
    ensures Spaced(s, p) == if Spaced(s[1..], true) == "" then "" else (if p then "" else " ") + Spaced(s[1..], true)
  {
    var t := s[1..];
    assert Words(s) == Words(t);
    if Words(t) != [] {
      JoinNonEmpty(t);
      NothingBefore(Join(Words(t), " "));
      assert Spaced(t, true) == Join(Words(t), " ");
    }
  }

  lemma {:induction false} CollapseToWords(s: string, p: bool)
    ensures TrimRight(Collapse(s, p), WSP) == Spaced(s, p)
    decreases |s|
  {
    if s != "" {
      var t := s[1..];
      CollapseToWords(t, s[0] in WSP);
      var head := if s[0] !in WSP then [s[0]] else if p then "" else " ";
      TrimRightAppend(head, Collapse(t, s[0] in WSP), WSP);
      assert Collapse(s, p) == head + Collapse(t, s[0] in WSP);
      if s[0] in WSP {
        SpacedBlank(s, p);
      } else {
        SpacedInk(s);
      }
    }
  }

  lemma {:induction false} JoinNonEmpty(s: string)
    requires Words(s) != []
    ensures Words(s)[0] != "" && Join(Words(s), " ") != ""
    decreases |s|
  {
    if s[0] in WSP {
      JoinNonEmpty(s[1..]);
    }
  }

  /** The prevWS scan with its final trim yields the line's words, one space apart. */
  lemma CanonLineIsRelaxedLine(line: string)
    ensures CanonLine(line) == RelaxedLine(line)
  {
    CollapseToWords(line, false);
  }

  lemma {:induction false} CollapseChars(s: string, p: bool, c: char)
    requires c in Collapse(s, p) && c != ' '
    ensures c in s
    decreases |s|
  {
    if s[0] in WSP || c != s[0] {
      CollapseChars(s[1..], s[0] in WSP, c);
    }
  }

  lemma CanonLineChars(line: string, c: char)
    requires c in CanonLine(line) && c != ' '
    ensures c in line
  {
    TrimRightEnd(Collapse(line, false), WSP);
    CollapseChars(line, false, c);
  }

  // ----- The whole body against the RFC -----

  function CodeLines(body: string): seq<string> {
    CanonLines(Split(Normalize(body), CRLF))
  }

  lemma CodeLinesAreRelaxed(body: string)
    ensures CodeLines(body) == RelaxedLines(BodyLines(body))
  {
    NormalizeFixesBareLf(body);
    forall line: string ensures CanonLine(line) == RelaxedLine(line) {
      CanonLineIsRelaxedLine(line);
    }
  }

  lemma {:induction false} FixedLfFollowsCr(s: string, afterCr: bool, i: nat)
    requires i < |FixBareLf(s, afterCr)| && FixBareLf(s, afterCr)[i] == LF
    ensures if i == 0 then afterCr else FixBareLf(s, afterCr)[i - 1] == CR
    decreases |s|
  {
    var n := if s[0] == LF && !afterCr then 2 else 1;
    if i >= n {
      FixedLfFollowsCr(s[1..], s[0] == CR, i - n);
    }
  }

  /** If every LF follows a CR, the lines of a text contain no LF. */
  lemma {:induction false} LinesHaveNoLf(s: string, p: string)
    requires forall i :: 0 <= i < |s| && s[i] == LF ==> i > 0 && s[i - 1] == CR
    requires p in Split(s, CRLF)
    ensures LF !in p
    decreases |s|
  {
    if s != "" {
      StartsCrlf(s);
      if CRLF <= s {
        SplitAtSep(s, CRLF);
        if p != "" {
          assert s[0] == CR && s[1] == LF && forall i :: 0 <= i < |s[2..]| ==> s[2..][i] == s[i + 2];
          LinesHaveNoLf(s[2..], p);
        }
      } else {
        SplitAtOther(s, CRLF);
        assert forall i :: 0 <= i < |s[1..]| && s[1..][i] == LF ==> i > 0 && s[1..][i - 1] == CR;
        LinesHaveNoLf(s[1..], Split(s[1..], CRLF)[0]);
        if p in Split(s[1..], CRLF) {
          LinesHaveNoLf(s[1..], p);
        }
      }
    }
  }

  lemma CodeLinesHaveNoLf(body: string, p: string)
    requires p in CodeLines(body)
    ensures LF !in p
  {
    NormalizeFixesBareLf(body);
    var s := FixBareLf(body, false);
    forall i | 0 <= i < |s| && s[i] == LF ensures i > 0 && s[i - 1] == CR {
      FixedLfFollowsCr(body, false, i);
    }
    var k :| 0 <= k < |Split(s, CRLF)| && p == CanonLine(Split(s, CRLF)[k]);
    LinesHaveNoLf(s, Split(s, CRLF)[k]);
    if LF in p {
      CanonLineChars(Split(s, CRLF)[k], LF);
    }
  }

  /** Trimming CR and LF off the joined lines first drops the empty lines at the end. */
  lemma {:induction false} TrimDropsEmptyTail(lines: seq<string>)
    ensures TrimRight(Join(lines, CRLF), {CR, LF}) == TrimRight(Join(DropEmptyTail(lines), CRLF), {CR, LF})
  {
    if lines != [] && lines[|lines| - 1] == "" {
      var front := lines[..|lines| - 1];
      TrimDropsEmptyTail(front);
      if front != [] {
        JoinSnoc(front, "");
        assert lines == front + [""];
        assert Join(lines, CRLF) == Join(front, CRLF) + CRLF;
        TrimRightAppend(Join(front, CRLF), CRLF, {CR, LF});
        TrimRightAll(CRLF, {CR, LF});
      }
    }
  }

  lemma {:induction false} DroppedTail(lines: seq<string>)
    ensures DropEmptyTail(lines) <= lines
    ensures var d := DropEmptyTail(lines); d != [] ==> d[|d| - 1] != ""
  {
    if lines != [] && lines[|lines| - 1] == "" {
      DroppedTail(lines[..|lines| - 1]);
    }
  }

  lemma {:induction false} JoinEndsWithLast(lines: seq<string>)
    requires lines != [] && lines[|lines| - 1] != ""
    ensures Join(lines, CRLF) != ""
    ensures Join(lines, CRLF)[|Join(lines, CRLF)| - 1] == lines[|lines| - 1][|lines[|lines| - 1]| - 1]
  {
    if |lines| > 1 {
      JoinEndsWithLast(lines[1..]);
    }
  }

  /** The last line that is not all blanks, without its trailing blanks. */
  function LastInk(lines: seq<string>): string {
    if lines == [] then ""
    else
      var ink := TrimRight(lines[|lines| - 1], WSP);
      if ink != "" then ink else LastInk(lines[..|lines| - 1])
  }

  /** The last line that is not all blanks ends, before its trailing blanks, in a CR that no LF follows. */
  predicate EndsInBareCr(body: string) {
    var ink := LastInk(BodyLines(body));
    ink != "" && ink[|ink| - 1] == CR
  }

  lemma TrimRightFixed(s: string, cut: set<char>)
    requires s != "" ==> s[|s| - 1] !in cut
    ensures TrimRight(s, cut) == s
  {
  }

  /** Collapsing keeps the last character, as a space if it was a blank. */
  lemma {:induction false} CollapseEnd(s: string)
    requires s != ""
    ensures var c := Collapse(s, false); c != "" && c[|c| - 1] == if s[|s| - 1] in WSP then ' ' else s[|s| - 1]
    decreases |s|
  {
    var front, end := s[..|s| - 1], s[|s| - 1];
    assert s == front + [end];
    CollapseSnoc(front, end, false);
    if front != "" {
      CollapseEnd(front);
    }
  }

  /** A canonical line ends where the line's ink ends. */
  lemma InkEnd(l: string)
    ensures var ink := TrimRight(l, WSP);
            CanonLine(l) == Collapse(ink, false) && (ink == "" <==> CanonLine(l) == "")
            && (ink != "" ==> CanonLine(l)[|CanonLine(l)| - 1] == ink[|ink| - 1])
  {
    var ink := TrimRight(l, WSP);
    TrimRightRest(l, WSP);
    TrimRightEnd(l, WSP);
    assert l == ink + l[|ink|..];
    CanonLineBlanks(ink, l[|ink|..]);
    if ink != "" {
      CollapseEnd(ink);
      TrimRightFixed(Collapse(ink, false), WSP);
    }
  }

  /** The last inked line of the canonical body comes from the last line with ink. */
  lemma {:induction false} LastInkedLine(lines: seq<string>)
    ensures var ls, ink := DropEmptyTail(CanonLines(lines)), LastInk(lines);
            && (ls == [] <==> ink == "")
            && (ls != [] ==> ls[|ls| - 1] != "" && ls[|ls| - 1][|ls[|ls| - 1]| - 1] == ink[|ink| - 1])
  {
    if lines != [] {
      var front, end := lines[..|lines| - 1], lines[|lines| - 1];
      LastInkedLine(front);
      InkEnd(end);
      assert CanonLines(lines)[|lines| - 1] == CanonLine(end);
      assert CanonLines(lines)[..|lines| - 1] == CanonLines(front);
    }
  }

  /** On the canonical side: the last inked line ends in CR. */
  lemma BareCrIsKept(body: string)
    ensures var ls := InkedLines(body);
            EndsInBareCr(body) <==> ls != [] && ls[|ls| - 1] != "" && ls[|ls| - 1][|ls[|ls| - 1]| - 1] == CR
  {
    InkedFromRaw(body);
    LastInkedLine(BodyLines(body));
  }

  lemma InkedFromRaw(body: string)
    ensures InkedLines(body) == DropEmptyTail(CanonLines(BodyLines(body)))
  {
    CodeLinesAreRelaxed(body);
    NormalizeFixesBareLf(body);
  }

  /** The inked lines of a body: canonical, without the blank tail. */
  function InkedLines(body: string): seq<string> {
    DropEmptyTail(RelaxedLines(BodyLines(body)))
  }

  lemma InkedLinesEnd(body: string)
    requires InkedLines(body) != []
    ensures var ls := InkedLines(body); var last := ls[|ls| - 1]; last != "" && last in CodeLines(body) && LF !in last
  {
    CodeLinesAreRelaxed(body);
    var all, ls := CodeLines(body), InkedLines(body);
    DroppedTail(all);
    assert ls[|ls| - 1] == all[|ls| - 1];
    CodeLinesHaveNoLf(body, ls[|ls| - 1]);
  }

  lemma TrimEnding(j: string)
    requires j != "" && j[|j| - 1] != LF
    ensures if j[|j| - 1] == CR then |TrimRight(j, {CR, LF})| < |j| else TrimRight(j, {CR, LF}) == j
  {
    TrimRightEnd(j[..|j| - 1], {CR, LF});
  }

  lemma InkedIsTrimmed(body: string)
    ensures Inked(body) == TrimRight(Join(InkedLines(body), CRLF), {CR, LF})
  {
    CodeLinesAreRelaxed(body);
    TrimDropsEmptyTail(CodeLines(body));
  }

  lemma TrimmedJoin(ls: seq<string>)
    requires ls != [] ==> ls[|ls| - 1] != "" && LF !in ls[|ls| - 1]
    ensures var j := Join(ls, CRLF);
            if ls != [] && ls[|ls| - 1][|ls[|ls| - 1]| - 1] == CR then |TrimRight(j, {CR, LF})| < |j|
            else TrimRight(j, {CR, LF}) == j
  {
    if ls != [] {
      JoinEndsWithLast(ls);
      TrimEnding(Join(ls, CRLF));
    }
  }

  lemma InkedIsJoin(body: string)
    ensures if EndsInBareCr(body) then |Inked(body)| < |Join(InkedLines(body), CRLF)|
            else Inked(body) == Join(InkedLines(body), CRLF)
  {
    BareCrIsKept(body);
    InkedIsTrimmed(body);
    if InkedLines(body) != [] {
      InkedLinesEnd(body);
    }
    TrimmedJoin(InkedLines(body));
  }

  /** The hashed string is the RFC's canonical body exactly when the body does not end in a bare CR. */
  lemma HashedIsRelaxedIff(body: string)
    ensures Hashed(body) == Relaxed(body) <==> !EndsInBareCr(body)
  {
    InkedIsJoin(body);
    var ls := InkedLines(body);
    if ls != [] {
      InkedLinesEnd(body);
      TerminatedIsJoin(ls);
      JoinEndsWithLast(ls);
    }
  }

  predicate CrOnlyBeforeLf(s: string) {
    forall i :: 0 <= i < |s| && s[i] == CR ==> i + 1 < |s| && s[i + 1] == LF
  }

  lemma {:induction false} FixKeepsCrBeforeLf(s: string, afterCr: bool)
    requires CrOnlyBeforeLf(s) && (afterCr ==> s != "" && s[0] == LF)
    ensures CrOnlyBeforeLf(FixBareLf(s, afterCr))
    ensures afterCr ==> FixBareLf(s, afterCr) != "" && FixBareLf(s, afterCr)[0] == LF
    decreases |s|
  {
    if s != "" {
      assert CrOnlyBeforeLf(s[1..]) by {
        assert forall i :: 0 <= i < |s[1..]| ==> s[1..][i] == s[i + 1];
      }
      FixKeepsCrBeforeLf(s[1..], s[0] == CR);
    }
  }

  lemma {:induction false} LinesHaveNoCr(s: string, p: string)
    requires CrOnlyBeforeLf(s) && p in Split(s, CRLF)
    ensures CR !in p
    decreases |s|
  {
    if s != "" {
      StartsCrlf(s);
      if CRLF <= s {
        SplitAtSep(s, CRLF);
        if p != "" {
          assert forall i :: 0 <= i < |s[2..]| ==> s[2..][i] == s[i + 2];
          LinesHaveNoCr(s[2..], p);
        }
      } else {
        SplitAtOther(s, CRLF);
        assert forall i :: 0 <= i < |s[1..]| ==> s[1..][i] == s[i + 1];
        LinesHaveNoCr(s[1..], Split(s[1..], CRLF)[0]);
        if p in Split(s[1..], CRLF) {
          LinesHaveNoCr(s[1..], p);
        }
      }
    }
  }

  /** For mail-conformant bodies, where CR occurs only before LF, the code meets section 3.4.4. */
  lemma ConformantBody(body: string)
    requires CrOnlyBeforeLf(body)
    ensures !EndsInBareCr(body) && Hashed(body) == Relaxed(body)
  {
    HashedIsRelaxedIff(body);
    if EndsInBareCr(body) {
      BareCrIsKept(body);
      InkedLinesEnd(body);
      NormalizeFixesBareLf(body);
      FixKeepsCrBeforeLf(body, false);
      var ls := InkedLines(body);
      var last := ls[|ls| - 1];
      var raw := BodyLines(body);
      var k :| 0 <= k < |raw| && last == CanonLine(raw[k]);
      CanonLineChars(raw[k], CR);
      LinesHaveNoCr(FixBareLf(body, false), raw[k]);
      assert false;
    }
  }

  // ----- Idempotence -----

  /** A line the scan leaves alone. */
  predicate Clean(l: string) {
    && '\t' !in l && LF !in l
    && (forall i :: 0 <= i < |l| - 1 && l[i] == ' ' ==> l[i + 1] != ' ')
    && (l != "" ==> l[|l| - 1] != ' ')
  }

  /** A text whose lines the scan leaves alone, save perhaps a blank at its very end. */
  predicate Tidy(x: string) {
    && '\t' !in x
    && (forall i :: 0 <= i < |x| - 1 && x[i] == ' ' ==> x[i + 1] != ' ')
    && (forall i :: 0 <= i < |x| - 2 && x[i] == ' ' && x[i + 1] == CR ==> x[i + 2] != LF)
  }

  lemma {:induction false} CollapseTidies(s: string, p: bool)
    ensures var c := Collapse(s, p);
            && '\t' !in c
            && (forall i :: 0 <= i < |c| - 1 && c[i] == ' ' ==> c[i + 1] != ' ')
            && (p && c != "" ==> c[0] != ' ')
    decreases |s|
  {
    if s != "" {
      CollapseTidies(s[1..], s[0] in WSP);
    }
  }

  lemma CanonLineIsClean(line: string)
    requires LF !in line
    ensures Clean(CanonLine(line))
  {
    CollapseTidies(line, false);
    TrimRightEnd(Collapse(line, false), WSP);
    if LF in CanonLine(line) {
      CanonLineChars(line, LF);
    }
  }

  lemma {:induction false} CollapseOfTidy(s: string, p: bool)
    requires '\t' !in s && (forall i :: 0 <= i < |s| - 1 && s[i] == ' ' ==> s[i + 1] != ' ')
    requires p && s != "" ==> s[0] != ' '
    ensures Collapse(s, p) == s
    decreases |s|
  {
    if s != "" {
      assert forall i :: 0 <= i < |s[1..]| ==> s[1..][i] == s[i + 1];
      CollapseOfTidy(s[1..], s[0] in WSP);
    }
  }

  lemma TidyPrepend(l: string, x: string)
    requires Clean(l) && Tidy(x)
    ensures Tidy(l + CRLF + x)
  {
  }

  lemma {:induction false} JoinIsTidy(lines: seq<string>)
    requires forall i :: 0 <= i < |lines| ==> Clean(lines[i])
    ensures Tidy(Join(lines, CRLF))
  {
    if |lines| > 1 {
      JoinIsTidy(lines[1..]);
      assert Clean(lines[0]);
      TidyPrepend(lines[0], Join(lines[1..], CRLF));
    } else if |lines| == 1 {
      assert Clean(lines[0]);
    }
  }

  /** A space is followed by more of its own line. */
  lemma AfterSpace(x: string)
    requires Tidy(x) && x != "" && x[0] == ' ' && x[|x| - 1] != ' '
    ensures var l := Split(x[1..], CRLF)[0]; l != "" && l[0] != ' '
  {
    var y := x[1..];
    assert y[0] != ' ';
    StartsCrlf(y);
    assert !(CRLF <= y);
    FirstLine(y);
  }

  lemma {:induction false} TidyLinesAreFixed(x: string)
    requires Tidy(x) && (x != "" ==> x[|x| - 1] != ' ')
    ensures CanonLines(Split(x, CRLF)) == Split(x, CRLF)
    decreases |x|
  {
    StartsCrlf(x);
    if x == "" {
      CollapseOfTidy("", false);
    } else if CRLF <= x {
      SplitAtSep(x, CRLF);
      assert forall i :: 0 <= i < |x[2..]| ==> x[2..][i] == x[i + 2];
      TidyLinesAreFixed(x[2..]);
      assert CanonLines(Split(x, CRLF)) == [CanonLine("")] + CanonLines(Split(x[2..], CRLF));
    } else {
      SplitAtOther(x, CRLF);
      var y := x[1..];
      assert forall i :: 0 <= i < |y| ==> y[i] == x[i + 1];
      TidyLinesAreFixed(y);
      var rest := Split(y, CRLF);
      FirstLine(y);
      assert CanonLine(rest[0]) == CanonLines(rest)[0] == rest[0];
      if x[0] == ' ' {
        AfterSpace(x);
      }
      ExtendFixed(x[0], rest[0]);
      FixedHead(x[0], rest);
    }
  }

  lemma FixedHead(c: char, rest: seq<string>)
    requires rest != [] && CanonLines(rest) == rest && CanonLine([c] + rest[0]) == [c] + rest[0]
    ensures var all := [[c] + rest[0]] + rest[1..]; CanonLines(all) == all
  {
    var all := [[c] + rest[0]] + rest[1..];
    forall i | 0 <= i < |all| ensures CanonLine(all[i]) == all[i] {
      if i > 0 {
        assert all[i] == rest[i] && CanonLines(rest)[i] == CanonLine(rest[i]);
      }
    }
  }

  /** The first line is a prefix of the text; it is empty only before a CRLF or at the end. */
  lemma FirstLine(y: string)
    ensures Split(y, CRLF)[0] <= y
    ensures Split(y, CRLF)[0] == "" ==> y == "" || CRLF <= y
  {
    var parts := Split(y, CRLF);
    JoinSplit(y, CRLF);
    if |parts| > 1 {
      assert y == parts[0] + (CRLF + Join(parts[1..], CRLF));
      assert parts[0] == "" ==> y[..2] == CRLF;
    }
  }

  lemma ExtendFixed(c: char, l: string)
    requires CanonLine(l) == l && c != '\t'
    requires c == ' ' ==> l != "" && l[0] != ' '
    ensures CanonLine([c] + l) == [c] + l
  {
    TrimRightEnd(Collapse(l, false), WSP);
    CollapseTidies(l, false);
    assert |Collapse(l, false)| <= |l| by { CollapseShrinks(l, false); }
    assert Collapse(l, false) == l;
    assert ([c] + l)[1..] == l;
    if c == ' ' {
      assert Collapse(l, true) == Collapse(l, false);
    }
    assert Collapse([c] + l, false) == [c] + l;
  }

  lemma {:induction false} CollapseShrinks(s: string, p: bool)
    ensures |Collapse(s, p)| <= |s|
    decreases |s|
  {
    if s != "" {
      CollapseShrinks(s[1..], s[0] in WSP);
    }
  }

  predicate LfAfterCr(x: string) {
    forall i :: 0 <= i < |x| && x[i] == LF ==> i > 0 && x[i - 1] == CR
  }

  lemma {:induction false} FixIsIdentity(x: string, afterCr: bool)
    requires x != "" && x[0] == LF ==> afterCr
    requires forall i :: 0 < i < |x| && x[i] == LF ==> x[i - 1] == CR
    ensures FixBareLf(x, afterCr) == x
    decreases |x|
  {
    if x != "" {
      assert forall i :: 0 <= i < |x[1..]| ==> x[1..][i] == x[i + 1];
      FixIsIdentity(x[1..], x[0] == CR);
      assert x == [x[0]] + x[1..];
    }
  }

  lemma {:induction false} JoinLfAfterCr(lines: seq<string>)
    requires forall i :: 0 <= i < |lines| ==> LF !in lines[i]
    ensures LfAfterCr(Join(lines, CRLF))
  {
    if |lines| > 1 {
      JoinLfAfterCr(lines[1..]);
      assert LF !in lines[0];
      var l, x := lines[0], Join(lines[1..], CRLF);
      assert LfAfterCr(l + CRLF + x);
    } else if |lines| == 1 {
      assert LF !in lines[0];
    }
  }

  lemma InkedIsTidy(body: string)
    ensures Tidy(Inked(body)) && LfAfterCr(Inked(body) + CRLF)
  {
    var lines := CodeLines(body);
    forall i | 0 <= i < |lines| ensures Clean(lines[i]) {
      CodeLinesHaveNoLf(body, lines[i]);
      RawLineHasNoLf(body, i);
      CanonLineIsClean(Split(Normalize(body), CRLF)[i]);
    }
    JoinIsTidy(lines);
    JoinLfAfterCr(lines);
    TrimRightEnd(Join(lines, CRLF), {CR, LF});
  }

  lemma RawLineHasNoLf(body: string, i: nat)
    requires i < |Split(Normalize(body), CRLF)|
    ensures LF !in Split(Normalize(body), CRLF)[i]
  {
    NormalizeFixesBareLf(body);
    var s := FixBareLf(body, false);
    forall j | 0 <= j < |s| && s[j] == LF ensures j > 0 && s[j - 1] == CR {
      FixedLfFollowsCr(body, false, j);
    }
    LinesHaveNoLf(s, Split(s, CRLF)[i]);
  }

  /** Hashing the canonical form again scans its lines, plus one empty line. */
  lemma SecondPass(body: string)
    requires Inked(body) != ""
    ensures Inked(Hashed(body)) == TrimRight(Join(CanonLines(Split(Inked(body), CRLF)), CRLF), {CR, LF})
  {
    var j := Inked(body);
    InkedIsTidy(body);
    NormalizeFixesBareLf(j + CRLF);
    FixIsIdentity(j + CRLF, false);
    SplitAppend(j, CRLF, "");
    assert j + CRLF + "" == j + CRLF;
    var parts := Split(j, CRLF);
    assert CanonLines(parts + [""]) == CanonLines(parts) + [""];
    JoinSnoc(CanonLines(parts), "");
    assert Join(CanonLines(parts) + [""], CRLF) == Join(CanonLines(parts), CRLF) + CRLF;
    TrimRightAppend(Join(CanonLines(parts), CRLF), CRLF, {CR, LF});
    TrimRightAll(CRLF, {CR, LF});
  }

  lemma {:induction false} CanonShrinksJoin(parts: seq<string>)
    requires parts != []
    ensures |Join(CanonLines(parts), CRLF)| <= |Join(parts, CRLF)|
    ensures |CanonLine(parts[|parts| - 1])| < |parts[|parts| - 1]| ==> |Join(CanonLines(parts), CRLF)| < |Join(parts, CRLF)|
  {
    CollapseShrinks(parts[0], false);
    TrimRightEnd(Collapse(parts[0], false), WSP);
    if |parts| > 1 {
      CanonShrinksJoin(parts[1..]);
      assert CanonLines(parts)[1..] == CanonLines(parts[1..]);
    }
  }

  lemma {:induction false} LastLineEnd(x: string)
    requires x != "" && x[|x| - 1] != LF
    ensures var p := Split(x, CRLF); var l := p[|p| - 1]; l != "" && l[|l| - 1] == x[|x| - 1]
    decreases |x|
  {
    StartsCrlf(x);
    if CRLF <= x {
      SplitAtSep(x, CRLF);
      LastLineEnd(x[2..]);
    } else {
      SplitAtOther(x, CRLF);
      if |x| > 1 {
        LastLineEnd(x[1..]);
      }
    }
  }

  /** What is left of a line without its trailing blanks and then its trailing CRs. */
  function Core(l: string): string {
    TrimRight(TrimRight(l, WSP), {CR})
  }

  /** The core of the last line that has one. */
  function LastCore(lines: seq<string>): string {
    if lines == [] then ""
    else if Core(lines[|lines| - 1]) != "" then Core(lines[|lines| - 1])
    else LastCore(lines[..|lines| - 1])
  }

  /** Bare CRs at the very end hide a blank from the line trim: cutting them off uncovers it. */
  predicate UncoversBlank(body: string) {
    var core := LastCore(BodyLines(body));
    core != "" && core[|core| - 1] in WSP
  }

  lemma {:induction false} CollapseInk(s: string, crs: string)
    requires forall c :: c in crs ==> c == CR
    ensures Collapse(s + crs, false) == Collapse(s, false) + crs
    decreases |crs|
  {
    if crs == "" {
      assert s + crs == s;
    } else {
      var front := crs[..|crs| - 1];
      assert crs[|crs| - 1] in crs && s + crs == (s + front) + [CR] && crs == front + [CR];
      forall c | c in front ensures c == CR {
        assert c in crs;
      }
      CollapseInk(s, front);
      CollapseSnoc(s + front, CR, false);
    }
  }

  lemma TrimmedCore(core: string, crs: string)
    requires (forall c :: c in crs ==> c == CR) && (core != "" ==> core[|core| - 1] !in {CR, LF})
    ensures TrimRight(Collapse(core + crs, false), {CR, LF}) == Collapse(core, false)
  {
    CollapseInk(core, crs);
    TrimRightAppend(Collapse(core, false), crs, {CR, LF});
    TrimRightAll(crs, {CR, LF});
    if core != "" {
      CollapseEnd(core);
    }
    TrimRightFixed(Collapse(core, false), {CR, LF});
  }

  /** What the final trim leaves of one canonical line is its core, collapsed. */
  lemma LineCore(l: string)
    requires LF !in l
    ensures TrimRight(CanonLine(l), {CR, LF}) == Collapse(Core(l), false)
  {
    var ink, core := TrimRight(l, WSP), Core(l);
    InkEnd(l);
    TrimRightRest(l, WSP);
    TrimRightRest(ink, {CR});
    TrimRightEnd(ink, {CR});
    assert ink == core + ink[|core|..];
    if core != "" {
      assert core[|core| - 1] in l;
    }
    TrimmedCore(core, ink[|core|..]);
  }

  lemma TrimJoinSnoc(front: seq<string>, l: string)
    ensures TrimRight(Join(front + [l], CRLF), {CR, LF})
            == if TrimRight(l, {CR, LF}) == "" then TrimRight(Join(front, CRLF), {CR, LF})
               else (if front == [] then "" else Join(front, CRLF) + CRLF) + TrimRight(l, {CR, LF})
  {
    if front == [] {
      assert front + [l] == [l];
      assert "" + TrimRight(l, {CR, LF}) == TrimRight(l, {CR, LF});
    } else {
      JoinSnoc(front, l);
      TrimRightAppend(Join(front, CRLF) + CRLF, l, {CR, LF});
      TrimRightAppend(Join(front, CRLF), CRLF, {CR, LF});
      TrimRightAll(CRLF, {CR, LF});
    }
  }

  predicate EndsLike(j: string, core: string) {
    && (j == "" <==> core == "")
    && (core != "" ==> j[|j| - 1] == if core[|core| - 1] in WSP then ' ' else core[|core| - 1])
  }

  lemma AppendedEnd(before: string, core: string)
    requires core != ""
    ensures EndsLike(before + Collapse(core, false), core)
  {
    CollapseEnd(core);
    var c := Collapse(core, false);
    assert (before + c)[|before + c| - 1] == c[|c| - 1];
  }

  /** The trimmed text ends as the last core does. */
  lemma {:induction false} TrimmedEnd(lines: seq<string>)
    requires forall i :: 0 <= i < |lines| ==> LF !in lines[i]
    ensures EndsLike(TrimRight(Join(CanonLines(lines), CRLF), {CR, LF}), LastCore(lines))
  {
    if lines != [] {
      var front, end := lines[..|lines| - 1], lines[|lines| - 1];
      var canon := CanonLines(front);
      assert CanonLines(lines) == canon + [CanonLine(end)];
      TrimJoinSnoc(canon, CanonLine(end));
      LineCore(end);
      if Core(end) == "" {
        TrimmedEnd(front);
      } else {
        CollapseEnd(Core(end));
        AppendedEnd(if canon == [] then "" else Join(canon, CRLF) + CRLF, Core(end));
      }
    }
  }

  /** On the canonical side: the trimmed text ends in a space. */
  lemma UncoveredBlankShows(body: string)
    ensures UncoversBlank(body) <==> Inked(body) != "" && Inked(body)[|Inked(body)| - 1] == ' '
  {
    NormalizeFixesBareLf(body);
    forall i | 0 <= i < |BodyLines(body)| ensures LF !in BodyLines(body)[i] {
      RawLineHasNoLf(body, i);
    }
    TrimmedEnd(BodyLines(body));
  }

  lemma EmptyHash()
    ensures Hashed("") == ""
  {
    NormalizeFixesBareLf("");
    assert CanonLine("") == "";
    assert Split("", CRLF) == [""];
    assert CanonLines([""]) == [""];
  }

  lemma SecondPassKeeps(body: string)
    requires Inked(body) != "" && !UncoversBlank(body)
    ensures Inked(Hashed(body)) == Inked(body)
  {
    var j := Inked(body);
    UncoveredBlankShows(body);
    SecondPass(body);
    InkedIsTidy(body);
    TidyLinesAreFixed(j);
    JoinSplit(j, CRLF);
    TrimRightEnd(Join(CodeLines(body), CRLF), {CR, LF});
  }

  lemma SecondPassShortens(body: string)
    requires UncoversBlank(body)
    ensures |Inked(Hashed(body))| < |Inked(body)|
  {
    var j := Inked(body);
    var parts := Split(j, CRLF);
    UncoveredBlankShows(body);
    SecondPass(body);
    LinesShorten(j);
    TrimRightEnd(Join(CanonLines(parts), CRLF), {CR, LF});
  }

  lemma LinesShorten(j: string)
    requires j != "" && j[|j| - 1] == ' '
    ensures |Join(CanonLines(Split(j, CRLF)), CRLF)| < |j|
  {
    var parts := Split(j, CRLF);
    LastLineEnd(j);
    CanonLineShorter(parts[|parts| - 1]);
    CanonShrinksJoin(parts);
    JoinSplit(j, CRLF);
  }

  /** Canonicalizing is idempotent exactly when no blank is uncovered by cutting trailing CRs. */
  lemma IdempotentIff(body: string)
    ensures Hashed(Hashed(body)) == Hashed(body) <==> !UncoversBlank(body)
  {
    UncoveredBlankShows(body);
    if Inked(body) == "" {
      EmptyHash();
    } else if UncoversBlank(body) {
      SecondPassShortens(body);
    } else {
      SecondPassKeeps(body);
    }
  }

  lemma CanonLineShorter(l: string)
    requires l != "" && l[|l| - 1] == ' '
    ensures |CanonLine(l)| < |l|
  {
    var front := l[..|l| - 1];
    assert l == front + " ";
    CollapseSnoc(front, ' ', false);
    CollapseShrinks(front, false);
    TrimRightEnd(Collapse(front, false), WSP);
    TrimRightAppend(Collapse(front, false), " ", WSP);
    TrimRightAll(" ", WSP);
    var c := Collapse(front, false);
    assert Collapse(l, false) == c + " " || Collapse(l, false) == c + "";
    assert c + "" == c;
  }

  /** In particular it is idempotent on every body that does not end in a bare CR. */
  lemma ConformantIsIdempotent(body: string)
    requires !EndsInBareCr(body)
    ensures Hashed(Hashed(body)) == Hashed(body)
  {
    IdempotentIff(body);
    UncoveredBlankShows(body);
    InkedIsJoin(body);
    var ls := InkedLines(body);
    if ls != [] {
      InkedLinesEnd(body);
      JoinEndsWithLast(ls);
      var last := ls[|ls| - 1];
      var k :| 0 <= k < |CodeLines(body)| && last == CodeLines(body)[k];
      TrimRightEnd(Collapse(Split(Normalize(body), CRLF)[k], false), WSP);
    }
  }

  // ----- What canonicalization ignores -----

  lemma {:induction false} FixAppend(a: string, b: string, p: bool)
    ensures FixBareLf(a + b, p) == FixBareLf(a, p) + FixBareLf(b, if a == "" then p else a[|a| - 1] == CR)
    decreases |a|
  {
    if a == "" {
      assert a + b == b;
    } else {
      assert (a + b)[1..] == a[1..] + b;
      FixAppend(a[1..], b, a[0] == CR);
      assert a[1..] != "" ==> a[1..][|a[1..]| - 1] == a[|a| - 1];
      var end := if a[1..] == "" then a[0] == CR else a[1..][|a[1..]| - 1] == CR;
      Regroup(if a[0] == LF && !p then CRLF else [a[0]], FixBareLf(a[1..], a[0] == CR), FixBareLf(b, end));
    }
  }

  lemma FixCrlf(y: string, p: bool)
    ensures FixBareLf(CRLF + y, p) == CRLF + FixBareLf(y, false)
  {
    assert (CRLF + y)[1..] == [LF] + y;
    assert ([LF] + y)[1..] == y;
    assert FixBareLf([LF] + y, true) == [LF] + FixBareLf(y, false);
  }

  function AppendLast(p: seq<string>, ws: string): seq<string>
    requires p != []
  {
    p[..|p| - 1] + [p[|p| - 1] + ws]
  }

  lemma AppendLastHead(c: char, q: seq<string>, ws: string)
    requires q != []
    ensures var r := AppendLast(q, ws); AppendLast([[c] + q[0]] + q[1..], ws) == [[c] + r[0]] + r[1..]
  {
    if |q| == 1 {
      assert [c] + (q[0] + ws) == ([c] + q[0]) + ws;
    }
  }

  lemma AppendLastCons(l: string, q: seq<string>, ws: string)
    requires q != []
    ensures AppendLast([l] + q, ws) == [l] + AppendLast(q, ws)
  {
  }

  lemma BlanksBreakNothing(x: string, ws: string)
    requires x != "" && forall c :: c in ws ==> c in WSP
    ensures CRLF <= x + ws <==> CRLF <= x
  {
    StartsCrlf(x);
    StartsCrlf(x + ws);
    if ws != "" {
      assert ws[0] in ws;
    }
  }

  lemma {:induction false} SplitBlanks(x: string, ws: string)
    requires forall c :: c in ws ==> c in WSP
    ensures Split(x + ws, CRLF) == AppendLast(Split(x, CRLF), ws)
    decreases |x|
  {
    if x == "" {
      assert x + ws == ws;
      WholeWithout(ws, CRLF, 0);
    } else {
      BlanksBreakNothing(x, ws);
      if CRLF <= x {
        SplitBlanks(x[2..], ws);
        assert (x + ws)[2..] == x[2..] + ws;
        SplitAtSep(x, CRLF);
        SplitAtSep(x + ws, CRLF);
        AppendLastCons("", Split(x[2..], CRLF), ws);
      } else {
        SplitBlanks(x[1..], ws);
        assert (x + ws)[1..] == x[1..] + ws && (x + ws)[0] == x[0];
        SplitAtOther(x, CRLF);
        SplitAtOther(x + ws, CRLF);
        AppendLastHead(x[0], Split(x[1..], CRLF), ws);
      }
    }
  }

  lemma {:induction false} CanonLineBlanks(l: string, ws: string)
    requires forall c :: c in ws ==> c in WSP
    ensures CanonLine(l + ws) == CanonLine(l)
    decreases |ws|
  {
    if ws == "" {
      assert l + ws == l;
    } else {
      var front, c := ws[..|ws| - 1], ws[|ws| - 1];
      assert c in ws && l + ws == (l + front) + [c];
      CanonLineBlanks(l, front);
      CollapseSnoc(l + front, c, false);
      TrimRightAppend(Collapse(l + front, false), " ", WSP);
      assert Collapse(l + front, false) + "" == Collapse(l + front, false);
    }
  }

  lemma CanonLinesAppend(a: seq<string>, b: seq<string>)
    ensures CanonLines(a + b) == CanonLines(a) + CanonLines(b)
  {
  }

  lemma SplitBlanksCanon(x: string, ws: string)
    requires forall c :: c in ws ==> c in WSP
    ensures CanonLines(Split(x + ws, CRLF)) == CanonLines(Split(x, CRLF))
  {
    SplitBlanks(x, ws);
    var p := Split(x, CRLF);
    CanonLineBlanks(p[|p| - 1], ws);
    var front, last := p[..|p| - 1], p[|p| - 1];
    assert p == front + [last];
    CanonLinesAppend(front, [last]);
    CanonLinesAppend(front, [last + ws]);
    assert CanonLines([last]) == [CanonLine(last)] && CanonLines([last + ws]) == [CanonLine(last + ws)];
  }

  /** Spaces and tabs before a line break never change the hash. */
  lemma TrailingBlanksIgnored(x: string, ws: string, y: string)
    requires forall c :: c in ws ==> c in WSP
    ensures Hashed(x + ws + CRLF + y) == Hashed(x + CRLF + y)
  {
    var fx, fy := FixBareLf(x, false), FixBareLf(y, false);
    NormalizeBroken(x + ws, y);
    NormalizeBroken(x, y);
    FixAppend(x, ws, false);
    FixBlanks(ws, if x == "" then false else x[|x| - 1] == CR);
    calc {
      CanonLines(Split(fx + ws + CRLF + fy, CRLF));
      { SplitAppend(fx + ws, CRLF, fy); CanonLinesAppend(Split(fx + ws, CRLF), Split(fy, CRLF)); }
      CanonLines(Split(fx + ws, CRLF)) + CanonLines(Split(fy, CRLF));
      { SplitBlanksCanon(fx, ws); }
      CanonLines(Split(fx, CRLF)) + CanonLines(Split(fy, CRLF));
      { SplitAppend(fx, CRLF, fy); CanonLinesAppend(Split(fx, CRLF), Split(fy, CRLF)); }
      CanonLines(Split(fx + CRLF + fy, CRLF));
    }
  }

  lemma NormalizeBroken(x: string, y: string)
    ensures Normalize(x + CRLF + y) == FixBareLf(x, false) + CRLF + FixBareLf(y, false)
  {
    NormalizeFixesBareLf(x + CRLF + y);
    Regroup(x, CRLF, y);
    FixAppend(x, CRLF + y, false);
    FixCrlf(y, if x == "" then false else x[|x| - 1] == CR);
    Regroup(FixBareLf(x, false), CRLF, FixBareLf(y, false));
  }

  lemma FixBlanks(ws: string, p: bool)
    requires forall c :: c in ws ==> c in WSP
    ensures FixBareLf(ws, p) == ws
  {
    forall i | 0 <= i < |ws| ensures ws[i] != LF {
      assert ws[i] in ws;
    }
    FixIsIdentity(ws, p);
  }

  /** Neither do blank lines added at the end. */
  lemma TrailingLinesIgnored(x: string, ws: string)
    requires forall c :: c in ws ==> c in WSP
    ensures Hashed(x + CRLF + ws + CRLF) == Hashed(x + CRLF) == Hashed(x)
  {
    LastBreakIgnored(x);
    LastBreakIgnored(x + CRLF);
    TrailingBlanksIgnored(x + CRLF, ws, "");
    assert x + CRLF + ws + CRLF + "" == x + CRLF + ws + CRLF;
    assert x + CRLF + CRLF + "" == x + CRLF + CRLF;
  }

  lemma LastBreakIgnored(x: string)
    ensures Hashed(x + CRLF) == Hashed(x)
  {
    NormalizeBroken(x, "");
    NormalizeFixesBareLf(x);
    assert x + CRLF + "" == x + CRLF;
    var fx := FixBareLf(x, false);
    SplitAppend(fx, CRLF, "");
    var parts := Split(fx, CRLF);
    assert CanonLine("") == "";
    assert CanonLines(parts + [""]) == CanonLines(parts) + [""];
    JoinSnoc(CanonLines(parts), "");
    TrimRightAppend(Join(CanonLines(parts), CRLF), CRLF, {CR, LF});
    TrimRightAll(CRLF, {CR, LF});
    assert Join(CanonLines(parts), CRLF) + CRLF + "" == Join(CanonLines(parts), CRLF) + CRLF;
  }

  lemma OneLine(l: string)
    requires LF !in l
    ensures Normalize(l) == l && Split(l, CRLF) == [l] && CodeLines(l) == [CanonLine(l)]
  {
    NormalizeFixesBareLf(l);
    FixIsIdentity(l, false);
    WholeWithout(l, CRLF, 1);
  }

  lemma BareCrInked(b: string)
    requires b == "a \r"
    ensures Inked(b) == "a "
  {
    OneLine(b);
    CollapseOfTidy(b, false);
    assert b[|b| - 1] == CR && b[..|b| - 1] == "a ";
    assert TrimRight(b, {CR, LF}) == "a ";
    assert TrimRight(b, WSP) == b;
  }

  /** "a", a space and a bare CR: the first pass keeps the space, the second drops it. */
  lemma BareCrBreaksIdempotence()
    ensures Hashed("a \r") == "a \r\n" && Hashed(Hashed("a \r")) != Hashed("a \r")
  {
    var b := "a \r";
    BareCrInked(b);
    UncoveredBlankShows(b);
    IdempotentIff(b);
  }
}
