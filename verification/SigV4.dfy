/** The canonical path and query of an S3 request signature, over byte strings (one character per byte). */
module SigV4 {
  import opened Common
  import opened Text

  // ----- Percent encoding -----

  predicate IsBytes(s: string) {
    forall i :: 0 <= i < |s| ==> s[i] < 256 as char
  }

  predicate Unreserved(c: char) {
    'A' <= c <= 'Z' || 'a' <= c <= 'z' || '0' <= c <= '9' || c == '-' || c == '_' || c == '.' || c == '~'
  }

  function HexDigit(n: int): char
    requires 0 <= n < 16
  {
    if n < 10 then (48 + n) as char else (55 + n) as char
  }

  function HexValue(c: char): Option<int> {
    if '0' <= c <= '9' then Some(c as int - 48) else if 'A' <= c <= 'F' then Some(c as int - 55) else None
  }

  function EncodeByte(c: char, encodeSlash: bool): string
    requires c < 256 as char
  {
    if Unreserved(c) || (c == '/' && !encodeSlash) then [c]
    else ['%', HexDigit(c as int / 16), HexDigit(c as int % 16)]
  }

  function Encode(s: string, encodeSlash: bool): string
    requires IsBytes(s)
  {
    if s == "" then "" else EncodeByte(s[0], encodeSlash) + Encode(s[1..], encodeSlash)
  }

  lemma {:induction false} EncodeAppend(a: string, b: string, encodeSlash: bool)
    requires IsBytes(a) && IsBytes(b)
    ensures IsBytes(a + b) && Encode(a + b, encodeSlash) == Encode(a, encodeSlash) + Encode(b, encodeSlash)
  {
    if a == "" {
      assert a + b == b;
    } else {
      assert (a + b)[1..] == a[1..] + b;
      EncodeAppend(a[1..], b, encodeSlash);
    }
  }

  method UriEncode(s: string, encodeSlash: bool) returns (out: string)
    requires IsBytes(s)
    ensures out == Encode(s, encodeSlash)
  {
    out := "";
    for i := 0 to |s|
      invariant out == Encode(s[..i], encodeSlash)
    {
      var c := s[i];
      assert s[..i + 1] == s[..i] + [c];
      EncodeAppend(s[..i], [c], encodeSlash);
      assert [c][1..] == "" && Encode([c], encodeSlash) == EncodeByte(c, encodeSlash) + "";
      if 'A' <= c <= 'Z' || 'a' <= c <= 'z' || '0' <= c <= '9' {
        out := out + [c];
      } else if c == '-' || c == '_' || c == '.' || c == '~' {
        out := out + [c];
      } else if c == '/' && !encodeSlash {
        out := out + [c];
      } else {
        out := out + ['%', HexDigit(c as int / 16), HexDigit(c as int % 16)];
      }
    }
    assert s[..|s|] == s;
  }

  /** Section 2.1 of RFC 3986. */
  function Decode(s: string): Option<string> {
    if s == "" then Some("")
    else if s[0] != '%' then
      var rest := Decode(s[1..]);
      if rest.None? then None else Some([s[0]] + rest.value)
    else if |s| < 3 || HexValue(s[1]).None? || HexValue(s[2]).None? then None
    else
      var rest := Decode(s[3..]);
      if rest.None? then None else Some([(HexValue(s[1]).value * 16 + HexValue(s[2]).value) as char] + rest.value)
  }

  lemma DecodeByte(c: char, encodeSlash: bool, t: string)
    requires c < 256 as char && Decode(t).Some?
    ensures Decode(EncodeByte(c, encodeSlash) + t) == Some([c] + Decode(t).value)
  {
    var e := EncodeByte(c, encodeSlash) + t;
    if Unreserved(c) || (c == '/' && !encodeSlash) {
      assert e[1..] == t;
    } else {
      assert e[3..] == t && e[0] == '%';
      assert HexValue(e[1]) == Some(c as int / 16) && HexValue(e[2]) == Some(c as int % 16);
    }
  }

  lemma HeadBack(s: string, t: string)
    requires s != ""
    ensures [s[0]] + (s[1..] + t) == s + t
  {
  }

  lemma {:induction false} DecodeAppend(s: string, encodeSlash: bool, t: string)
    requires IsBytes(s) && Decode(t).Some?
    ensures Decode(Encode(s, encodeSlash) + t) == Some(s + Decode(t).value)
  {
    if s == "" {
      assert Encode(s, encodeSlash) + t == t;
      assert s + Decode(t).value == Decode(t).value;
    } else {
      DecodeAppend(s[1..], encodeSlash, t);
      var rest := Encode(s[1..], encodeSlash) + t;
      DecodeByte(s[0], encodeSlash, rest);
      Regroup(EncodeByte(s[0], encodeSlash), Encode(s[1..], encodeSlash), t);
      HeadBack(s, Decode(t).value);
    }
  }

  /** A byte is written as itself exactly if it is one of the unreserved characters of section 2.3 of
      RFC 3986, or a slash where slashes stay; any other byte takes three characters, upper-case hex. */
  lemma EncodedForm(c: char, encodeSlash: bool)
    requires c < 256 as char
    ensures Encode([c], encodeSlash) == [c] <==>
            || 'A' <= c <= 'Z' || 'a' <= c <= 'z' || '0' <= c <= '9' || c in {'-', '.', '_', '~'}
            || (c == '/' && !encodeSlash)
    ensures var e := Encode([c], encodeSlash);
            e != [c] ==> |e| == 3 && e[0] == '%' && e[1] in "0123456789ABCDEF" && e[2] in "0123456789ABCDEF"
  {
    assert [c][1..] == "";
    assert Encode([c], encodeSlash) == EncodeByte(c, encodeSlash) + "";
    if |EncodeByte(c, encodeSlash)| == 3 {
      HexIsListed(c as int / 16);
      HexIsListed(c as int % 16);
    }
  }

  lemma HexIsListed(n: int)
    requires 0 <= n < 16
    ensures HexDigit(n) in "0123456789ABCDEF"
  {
    var h := "0123456789ABCDEF";
    assert h[n] == HexDigit(n);
  }

  /** Decoding undoes encoding for every byte string, with slashes encoded or not. */
  lemma DecodeUndoesEncode(s: string, encodeSlash: bool)
    requires IsBytes(s)
    ensures Decode(Encode(s, encodeSlash)) == Some(s)
  {
    DecodeAppend(s, encodeSlash, "");
    assert Encode(s, encodeSlash) + "" == Encode(s, encodeSlash);
    assert s + "" == s;
  }

  lemma {:induction false} EncodedChars(s: string, encodeSlash: bool, c: char)
    requires IsBytes(s) && c in Encode(s, encodeSlash)
    ensures c == '%' || Unreserved(c) || (c == '/' && !encodeSlash)
  {
    if c in EncodeByte(s[0], encodeSlash) {
    } else {
      EncodedChars(s[1..], encodeSlash, c);
    }
  }

  // ----- The path -----

  function EncodeSegments(parts: seq<string>): seq<string>
    requires forall i :: 0 <= i < |parts| ==> IsBytes(parts[i])
  {
    seq(|parts|, i requires 0 <= i < |parts| => Encode(parts[i], false))
  }

  lemma SegmentBytes(p: string)
    requires IsBytes(p)
    ensures forall i :: 0 <= i < |Split(p, "/")| ==> IsBytes(Split(p, "/")[i])
  {
    var parts := Split(p, "/");
    forall i, j | 0 <= i < |parts| && 0 <= j < |parts[i]| ensures parts[i][j] < 256 as char {
      SplitChars(p, "/", parts[i], parts[i][j]);
    }
  }

  lemma SlashStays(head: string, tail: string)
    requires IsBytes(head) && IsBytes(tail)
    ensures IsBytes(head + "/" + tail)
    ensures Encode(head + "/" + tail, false) == Encode(head, false) + "/" + Encode(tail, false)
  {
    EncodeAppend(head + "/", tail, false);
    EncodeAppend(head, "/", false);
    assert "/"[1..] == "" && Encode("/", false) == "/" + "";
  }

  /** Encoding segment by segment is encoding the whole path and leaving its slashes. */
  lemma {:induction false} SegmentsAreWholePath(parts: seq<string>)
    requires parts != [] && forall i :: 0 <= i < |parts| ==> IsBytes(parts[i])
    ensures IsBytes(Join(parts, "/"))
    ensures Join(EncodeSegments(parts), "/") == Encode(Join(parts, "/"), false)
  {
    if |parts| > 1 {
      SegmentsAreWholePath(parts[1..]);
      assert EncodeSegments(parts)[1..] == EncodeSegments(parts[1..]);
      SlashStays(parts[0], Join(parts[1..], "/"));
    }
  }

  method CanonicalUriPath(p: string) returns (out: string)
    requires IsBytes(p)
    ensures out == if p == "" then "/" else if p[0] == '/' then Encode(p, false) else "/" + Encode(p, false)
  {
    if p == "" {
      return "/";
    }
    var parts := Split(p, "/");
    SegmentBytes(p);
    var segs := new string[|parts|](i requires 0 <= i < |parts| => parts[i]);
    for i := 0 to segs.Length
      invariant forall j :: 0 <= j < i ==> segs[j] == Encode(parts[j], false)
      invariant forall j :: i <= j < segs.Length ==> segs[j] == parts[j]
    {
      segs[i] := UriEncode(segs[i], false);
    }
    assert segs[..] == EncodeSegments(parts);
    out := Join(segs[..], "/");
    SegmentsAreWholePath(parts);
    JoinSplit(p, "/");
    assert out[0] == '/' <==> p[0] == '/' by { assert Unreserved(p[0]) ==> p[0] != '/'; }
    if out[0] != '/' {
      out := "/" + out;
    }
  }

  /** The canonical path decodes to the path, made absolute. */
  lemma PathDecodes(p: string)
    requires IsBytes(p)
    ensures var out := if p == "" then "/" else if p[0] == '/' then Encode(p, false) else "/" + Encode(p, false);
            Decode(out) == Some(if p != "" && p[0] == '/' then p else "/" + p)
  {
    DecodeUndoesEncode(p, false);
    if p == "" {
      assert "/"[1..] == "" && "/" + p == "/";
    } else if p[0] != '/' {
      assert ("/" + Encode(p, false))[1..] == Encode(p, false);
    }
  }
}
