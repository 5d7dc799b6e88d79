/** The signer's header values against relaxed header canonicalization, section 3.4.2 of RFC 6376. */
module DkimHeaderLaws {
  import opened Text
  import opened DkimBody
  import opened DkimBodyLaws
  import opened DkimHeaders

  /** A field body on one line: its line breaks left out, character by character. */
  function Unfolded(v: string): string {
    if v == "" then ""
    else if v[0] == CR && |v| > 1 && v[1] == LF then Unfolded(v[2..])
    else [v[0]] + Unfolded(v[1..])
  }

  lemma {:induction false} UnfoldedIsReplaced(v: string)
    ensures ReplaceAll(v, CRLF, "") == Unfolded(v)
    decreases |v|
  {
    StartsCrlf(v);
    if v != "" {
      if CRLF <= v {
        UnfoldedIsReplaced(v[2..]);
      } else {
        UnfoldedIsReplaced(v[1..]);
        assert v == [v[0]] + v[1..];
      }
    }
  }

  /** The section's rule: the words of the unfolded value one space apart, without blanks at either end. */
  function RelaxedValue(v: string): string {
    Join(Words(Unfolded(v)), " ") + CRLF
  }

  /** Between its outer blanks the value neither starts nor ends in another Unicode space. */
  predicate PlainEnds(v: string) {
    var ink := TrimWsp(Unfolded(v));
    ink != "" ==> ink[0] !in SPACES && ink[|ink| - 1] !in SPACES
  }

  // ----- The value -----

  lemma {:induction false} LeadingBlanks(s: string)
    ensures Words(TrimLeft(s, WSP)) == Words(s)
  {
    if s != "" && s[0] in WSP {
      LeadingBlanks(s[1..]);
    }
  }

  lemma Unindented(t: string)
    requires t != "" ==> t[0] !in WSP
    ensures CanonLine(t) == Join(Words(t), " ")
  {
    CanonLineIsRelaxedLine(t);
    NothingBefore(Join(Words(t), " "));
  }

  lemma CollapseStart(s: string)
    requires s != "" && s[0] !in WSP
    ensures Collapse(s, false) != "" && Collapse(s, false)[0] == s[0]
  {
  }

  lemma TrimRightStart(t: string)
    requires TrimRight(t, WSP) != ""
    ensures TrimRight(t, WSP)[0] == t[0]
  {
    TrimRightEnd(t, WSP);
  }

  /** The words one space apart are the trimmed text, collapsed. */
  lemma WordsAreInk(s: string)
    ensures var y, ink := Join(Words(s), " "), TrimWsp(s);
            && (y == "" <==> ink == "")
            && (ink != "" ==> y[0] == ink[0] && y[|y| - 1] == ink[|ink| - 1])
  {
    var t := TrimLeft(s, WSP);
    LeadingBlanks(s);
    TrimLeftStart(s, WSP);
    Unindented(t);
    InkEnd(t);
    if TrimWsp(s) != "" {
      TrimRightStart(t);
      CollapseStart(TrimWsp(s));
    }
  }

  /** The collapsed text is the words one space apart, with blanks around them. */
  lemma CollapsedAround(s: string) returns (a: string, b: string)
    ensures Collapse(s, false) == a + Join(Words(s), " ") + b && All(a, SPACES) && All(b, SPACES)
  {
    var c := Collapse(s, false);
    var t := TrimRight(c, WSP);
    CollapseToWords(s, false);
    TrimRightRest(c, WSP);
    b := c[|t|..];
    a := if Words(s) != [] && s[0] in WSP then " " else "";
    assert t == a + Join(Words(s), " ");
    forall i | 0 <= i < |b| ensures b[i] in SPACES {
      assert b[i] in b;
    }
  }

  lemma SameBeforeCrlf(a: string, b: string)
    ensures a + CRLF == b + CRLF <==> a == b
  {
    if a + CRLF == b + CRLF {
      assert a == (a + CRLF)[..|a|] && b == (b + CRLF)[..|b|];
    }
  }

  /** The signer's value is the section's exactly when TrimSpace meets no other Unicode space at the ends. */
  lemma CanonValueIsRelaxedIff(v: string)
    ensures CanonValue(v) == RelaxedValue(v) <==> PlainEnds(v)
  {
    var s := Unfolded(v);
    UnfoldedIsReplaced(v);
    var y := Join(Words(s), " ");
    var a, b := CollapsedAround(s);
    TrimSpaceAround(a, y, b);
    TrimSpaceKeepsIff(y);
    WordsAreInk(s);
    SameBeforeCrlf(TrimSpace(Collapse(s, false)), y);
  }

  lemma {:induction false} UnfoldedChars(v: string, c: char)
    requires c in Unfolded(v)
    ensures c in v
    decreases |v|
  {
    if v[0] == CR && |v| > 1 && v[1] == LF {
      UnfoldedChars(v[2..], c);
    } else if c != v[0] {
      UnfoldedChars(v[1..], c);
    }
  }

  lemma TrimWspChars(s: string)
    ensures var t := TrimWsp(s); (forall c :: c in t ==> c in s) && (t != "" ==> t[0] !in WSP && t[|t| - 1] !in WSP)
  {
    TrimLeftChars(s);
    TrimLeftStart(s, WSP);
    TrimRightEnd(TrimLeft(s, WSP), WSP);
  }

  lemma {:induction false} TrimLeftChars(s: string)
    ensures forall c :: c in TrimLeft(s, WSP) ==> c in s
  {
    if s != "" && s[0] in WSP {
      TrimLeftChars(s[1..]);
    }
  }

  /** In particular on every ASCII value the header reader accepts. */
  lemma AsciiValueConforms(v: string)
    requires forall c :: c in v ==> ValueByte(c) && c < 128 as char
    ensures CanonValue(v) == RelaxedValue(v)
  {
    CanonValueIsRelaxedIff(v);
    var s := Unfolded(v);
    var ink := TrimWsp(s);
    TrimWspChars(s);
    if ink != "" {
      UnfoldedChars(v, ink[0]);
      UnfoldedChars(v, ink[|ink| - 1]);
    }
  }

  /** A value that is one no-break space is dropped by the signer and kept by the section. */
  lemma NoBreakSpaceDiffers()
    ensures CanonValue("\U{A0}") != RelaxedValue("\U{A0}")
  {
    var v := "\U{A0}";
    CanonValueIsRelaxedIff(v);
    assert Unfolded(v) == v;
    assert TrimWsp(v) == v;
  }
}
