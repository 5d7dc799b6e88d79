/** The Go string operations the code relies on, over sequences of characters. */
module Text {

  const CR: char := '\r'
  const LF: char := '\n'
  const CRLF: string := "\r\n"
  const WSP: set<char> := {' ', '\t'}

  /** Exactly the characters unicode.IsSpace accepts. */
  const SPACES: set<char> := {
    '\t', '\n', '\U{0B}', '\U{0C}', '\r', ' ', '\U{85}', '\U{A0}', '\U{1680}', '\U{2000}', '\U{2001}',
    '\U{2002}', '\U{2003}', '\U{2004}', '\U{2005}', '\U{2006}', '\U{2007}', '\U{2008}', '\U{2009}',
    '\U{200A}', '\U{2028}', '\U{2029}', '\U{202F}', '\U{205F}', '\U{3000}'
  }

  function TrimLeft(s: string, cut: set<char>): string {
    if s != "" && s[0] in cut then TrimLeft(s[1..], cut) else s
  }

  function TrimRight(s: string, cut: set<char>): string {
    if s != "" && s[|s| - 1] in cut then TrimRight(s[..|s| - 1], cut) else s
  }

  function TrimSpace(s: string): string {
    TrimRight(TrimLeft(s, SPACES), SPACES)
  }

  /** Lower case of the ASCII letters. */
  function LowerChar(c: char): char {
    if 'A' <= c <= 'Z' then (c as int + 32) as char else c
  }

  function ToLower(s: string): string {
    seq(|s|, i requires 0 <= i < |s| => LowerChar(s[i]))
  }

  function LowerTrim(s: string): string {
    ToLower(TrimSpace(s))
  }

  function Split(s: string, sep: string): (parts: seq<string>)
    requires sep != ""
    ensures |parts| > 0
    decreases |s|
  {
    if |s| < |sep| then [s]
    else if sep <= s then [""] + Split(s[|sep|..], sep)
    else var rest := Split(s[1..], sep); [[s[0]] + rest[0]] + rest[1..]
  }

  function Join(parts: seq<string>, sep: string): string {
    if parts == [] then "" else if |parts| == 1 then parts[0] else parts[0] + sep + Join(parts[1..], sep)
  }

  function ReplaceAll(s: string, old_: string, new_: string): string
    requires old_ != ""
    decreases |s|
  {
    if |s| < |old_| then s
    else if old_ <= s then new_ + ReplaceAll(s[|old_|..], old_, new_)
    else [s[0]] + ReplaceAll(s[1..], old_, new_)
  }

  /** True of separators that cannot overlap themselves. */
  predicate FirstUnique(sep: string) {
    sep != "" && forall i :: 0 < i < |sep| ==> sep[i] != sep[0]
  }

  /** A part that contains no separator. */
  predicate Whole(p: string, sep: string)
    requires sep != ""
  {
    Split(p, sep) == [p]
  }

  lemma Regroup(a: string, b: string, c: string)
    ensures (a + b) + c == a + (b + c)
  {
  }

  lemma StartsChar(s: string, c: char)
    ensures [c] <= s <==> s != "" && s[0] == c
  {
    if s != "" && s[0] == c {
      assert s[..1] == [c];
    }
  }

  lemma StartsCrlf(s: string)
    ensures CRLF <= s <==> |s| > 1 && s[0] == CR && s[1] == LF
  {
    if |s| > 1 && s[0] == CR && s[1] == LF {
      assert s[..2] == CRLF;
    }
  }

  lemma SplitAtSep(s: string, sep: string)
    requires sep != "" && sep <= s
    ensures Split(s, sep) == [""] + Split(s[|sep|..], sep)
  {
  }

  lemma SplitAtOther(s: string, sep: string)
    requires sep != "" && s != "" && !(sep <= s)
    ensures Split(s, sep) == [[s[0]] + Split(s[1..], sep)[0]] + Split(s[1..], sep)[1..]
  {
    assert s == [s[0]] + s[1..];
  }

  lemma SepCannotStraddle(x: string, sep: string, y: string)
    requires FirstUnique(sep) && x != ""
    ensures sep <= x + sep + y ==> sep <= x
  {
    assert (x + sep + y)[|x|] == sep[0];
  }

  lemma HeadAppend(c: char, p: seq<string>, q: seq<string>)
    requires p != []
    ensures [[c] + (p + q)[0]] + (p + q)[1..] == ([[c] + p[0]] + p[1..]) + q
  {
  }

  lemma {:induction false} SplitAppend(x: string, sep: string, y: string)
    requires FirstUnique(sep)
    ensures Split(x + sep + y, sep) == Split(x, sep) + Split(y, sep)
    decreases |x|
  {
    var s := x + sep + y;
    if x == "" {
      assert s == sep + y && s[|sep|..] == y;
      SplitAtSep(s, sep);
    } else if sep <= x {
      SplitAppend(x[|sep|..], sep, y);
      assert s[|sep|..] == x[|sep|..] + sep + y;
      SplitAtSep(s, sep);
      SplitAtSep(x, sep);
    } else {
      SplitAppend(x[1..], sep, y);
      SepCannotStraddle(x, sep, y);
      assert s[1..] == x[1..] + sep + y;
      assert s[0] == x[0];
      SplitAtOther(s, sep);
      SplitAtOther(x, sep);
      HeadAppend(x[0], Split(x[1..], sep), Split(y, sep));
    }
  }

  lemma JoinCons(p: string, parts: seq<string>, sep: string)
    requires parts != []
    ensures Join([p] + parts, sep) == p + sep + Join(parts, sep)
  {
    assert ([p] + parts)[1..] == parts;
  }

  lemma JoinHead(c: char, parts: seq<string>, sep: string)
    requires parts != []
    ensures Join([[c] + parts[0]] + parts[1..], sep) == [c] + Join(parts, sep)
  {
    assert ([[c] + parts[0]] + parts[1..])[1..] == parts[1..];
  }

  lemma {:induction false} JoinSplit(s: string, sep: string)
    requires sep != ""
    ensures Join(Split(s, sep), sep) == s
    decreases |s|
  {
    if s == "" {
    } else if sep <= s {
      JoinSplit(s[|sep|..], sep);
      SplitAtSep(s, sep);
      JoinCons("", Split(s[|sep|..], sep), sep);
    } else {
      JoinSplit(s[1..], sep);
      SplitAtOther(s, sep);
      JoinHead(s[0], Split(s[1..], sep), sep);
    }
  }

  lemma {:induction false} SplitJoin(parts: seq<string>, sep: string)
    requires FirstUnique(sep) && parts != []
    requires forall i :: 0 <= i < |parts| ==> Whole(parts[i], sep)
    ensures Split(Join(parts, sep), sep) == parts
  {
    if |parts| > 1 {
      SplitJoin(parts[1..], sep);
      SplitAppend(parts[0], sep, Join(parts[1..], sep));
      assert parts == [parts[0]] + parts[1..];
    } else {
      assert Whole(parts[0], sep);
    }
  }

  lemma PrefixHas(p: string, sep: string, k: nat)
    requires k < |sep|
    ensures sep <= p ==> sep[k] in p
  {
    if sep <= p {
      assert p[k] == sep[k];
    }
  }

  /** A string lacking one of the separator's characters contains no separator. */
  lemma {:induction false} WholeWithout(p: string, sep: string, k: nat)
    requires k < |sep| && sep[k] !in p
    ensures Whole(p, sep)
    decreases |p|
  {
    if p != "" {
      PrefixHas(p, sep, k);
      WholeWithout(p[1..], sep, k);
      SplitAtOther(p, sep);
      assert p == [p[0]] + p[1..];
    }
  }

  /** Parts take only characters of the text. */
  lemma {:induction false} SplitChars(s: string, sep: string, p: string, c: char)
    requires sep != "" && p in Split(s, sep) && c in p
    ensures c in s
    decreases |s|
  {
    if s == "" {
    } else if sep <= s {
      SplitAtSep(s, sep);
      SplitChars(s[|sep|..], sep, p, c);
    } else {
      SplitAtOther(s, sep);
      var rest := Split(s[1..], sep);
      if p in rest {
        SplitChars(s[1..], sep, p, c);
      } else {
        assert p == [s[0]] + rest[0];
        if c in rest[0] {
          SplitChars(s[1..], sep, rest[0], c);
        }
      }
    }
  }

  lemma {:induction false} TrimRightAppend(a: string, b: string, cut: set<char>)
    ensures TrimRight(a + b, cut) == if TrimRight(b, cut) == "" then TrimRight(a, cut) else a + TrimRight(b, cut)
    decreases |b|
  {
    if b == "" {
      assert a + b == a;
    } else if b[|b| - 1] in cut {
      assert (a + b)[..|a + b| - 1] == a + b[..|b| - 1];
      TrimRightAppend(a, b[..|b| - 1], cut);
    }
  }

  lemma {:induction false} TrimRightEnd(s: string, cut: set<char>)
    ensures TrimRight(s, cut) <= s
    ensures TrimRight(s, cut) != "" ==> TrimRight(s, cut)[|TrimRight(s, cut)| - 1] !in cut
  {
    if s != "" && s[|s| - 1] in cut {
      TrimRightEnd(s[..|s| - 1], cut);
    }
  }

  lemma {:induction false} TrimLeftStart(s: string, cut: set<char>)
    ensures var t := TrimLeft(s, cut);
            |t| <= |s| && (t != "" ==> t[0] !in cut) && (s != "" && s[0] in cut ==> |t| < |s|)
  {
    if s != "" && s[0] in cut {
      TrimLeftStart(s[1..], cut);
    }
  }

  lemma TrimSpaceEnds(s: string)
    ensures var t := TrimSpace(s); t != "" ==> t[0] !in SPACES && t[|t| - 1] !in SPACES
  {
    TrimLeftStart(s, SPACES);
    TrimRightEnd(TrimLeft(s, SPACES), SPACES);
  }

  lemma LowerTrimIsStable(s: string)
    ensures LowerTrim(LowerTrim(s)) == LowerTrim(s)
  {
    LowerTrimForm(s);
    var n := LowerTrim(s);
    TrimSpaceKeepsIff(n);
  }

  lemma {:induction false} TrimRightAll(s: string, cut: set<char>)
    requires forall c :: c in s ==> c in cut
    ensures TrimRight(s, cut) == ""
  {
    if s != "" {
      TrimRightAll(s[..|s| - 1], cut);
    }
  }

  lemma {:induction false} TrimRightRest(s: string, cut: set<char>)
    ensures var t := TrimRight(s, cut); t <= s && forall c :: c in s[|t|..] ==> c in cut
  {
    if s != "" && s[|s| - 1] in cut {
      var front := s[..|s| - 1];
      TrimRightRest(front, cut);
      var t := TrimRight(front, cut);
      assert s[|t|..] == front[|t|..] + [s[|s| - 1]];
    }
  }

  predicate All(s: string, cut: set<char>) {
    forall i :: 0 <= i < |s| ==> s[i] in cut
  }

  lemma {:induction false} TrimLeftAppend(a: string, b: string, cut: set<char>)
    ensures TrimLeft(a + b, cut) == if TrimLeft(a, cut) == "" then TrimLeft(b, cut) else TrimLeft(a, cut) + b
    decreases |a|
  {
    if a == "" {
      assert a + b == b;
    } else if a[0] in cut {
      assert (a + b)[1..] == a[1..] + b;
      TrimLeftAppend(a[1..], b, cut);
    }
  }

  lemma {:induction false} TrimLeftAll(s: string, cut: set<char>)
    requires All(s, cut)
    ensures TrimLeft(s, cut) == ""
  {
    if s != "" {
      TrimLeftAll(s[1..], cut);
    }
  }

  lemma AllIsTrimmed(s: string, cut: set<char>)
    requires All(s, cut)
    ensures TrimRight(s, cut) == ""
  {
    forall c | c in s ensures c in cut {
    }
    TrimRightAll(s, cut);
  }

  /** Spaces around a text do not matter to TrimSpace. */
  lemma TrimSpaceAround(a: string, y: string, b: string)
    requires All(a, SPACES) && All(b, SPACES)
    ensures TrimSpace(a + y + b) == TrimSpace(y)
  {
    TrimLeftAppend(a, y, SPACES);
    TrimLeftAll(a, SPACES);
    TrimLeftAppend(a + y, b, SPACES);
    TrimLeftAll(b, SPACES);
    var t := TrimLeft(y, SPACES);
    if t != "" {
      TrimRightAppend(t, b, SPACES);
      AllIsTrimmed(b, SPACES);
    }
  }

  /** TrimSpace keeps a text exactly when no space stands at either end. */
  lemma TrimSpaceKeepsIff(y: string)
    ensures TrimSpace(y) == y <==> (y != "" ==> y[0] !in SPACES && y[|y| - 1] !in SPACES)
  {
    var t := TrimLeft(y, SPACES);
    TrimLeftStart(y, SPACES);
    TrimRightEnd(t, SPACES);
  }

  /** TrimSpace takes spaces off both ends, all of them, and nothing else. */
  lemma TrimSpaceIsInner(s: string) returns (a: string, b: string)
    ensures s == a + TrimSpace(s) + b && All(a, SPACES) && All(b, SPACES)
    ensures var t := TrimSpace(s); t != "" ==> t[0] !in SPACES && t[|t| - 1] !in SPACES
  {
    TrimSpaceEnds(s);
    var left := TrimLeft(s, SPACES);
    TrimLeftRest(s, SPACES);
    a := s[..|s| - |left|];
    TrimRightRest(left, SPACES);
    b := left[|TrimSpace(s)|..];
    assert forall i :: 0 <= i < |b| ==> b[i] in b;
  }

  lemma {:induction false} TrimLeftRest(s: string, cut: set<char>)
    ensures var t := TrimLeft(s, cut);
            |t| <= |s| && s[|s| - |t|..] == t && All(s[..|s| - |t|], cut)
  {
    if s != "" && s[0] in cut {
      TrimLeftRest(s[1..], cut);
      var n := |s| - |TrimLeft(s, cut)|;
      assert s[n..] == s[1..][n - 1..];
      forall i | 0 <= i < n ensures s[..n][i] in cut {
        if i > 0 {
          assert s[..n][i] == s[1..][..n - 1][i - 1];
        }
      }
    }
  }

  /** Letters A to Z become a to z; every other character stays. */
  lemma LowerIsAscii(c: char)
    ensures 'A' <= c <= 'Z' ==> LowerChar(c) as int - 'a' as int == c as int - 'A' as int
    ensures !('A' <= c <= 'Z') ==> LowerChar(c) == c
  {
  }

  /** Spaces around a text do not matter to LowerTrim. */
  lemma LowerTrimIgnores(a: string, s: string, b: string)
    requires All(a, SPACES) && All(b, SPACES)
    ensures LowerTrim(a + s + b) == LowerTrim(s)
  {
    TrimSpaceAround(a, s, b);
  }

  lemma LowerKeepsSpace(c: char)
    ensures LowerChar(c) in SPACES <==> c in SPACES
  {
  }

  /** Its result has no capital letter and no space at either end. */
  lemma LowerTrimForm(s: string)
    ensures var t := LowerTrim(s);
            && |t| == |TrimSpace(s)|
            && (forall i :: 0 <= i < |t| ==> t[i] == LowerChar(TrimSpace(s)[i]) && !('A' <= t[i] <= 'Z'))
            && (t != "" ==> t[0] !in SPACES && t[|t| - 1] !in SPACES)
  {
    TrimSpaceEnds(s);
    var u := TrimSpace(s);
    if u != "" {
      LowerKeepsSpace(u[0]);
      LowerKeepsSpace(u[|u| - 1]);
    }
  }

  function Concat(parts: seq<string>): string {
    if parts == [] then "" else parts[0] + Concat(parts[1..])
  }

  lemma {:induction false} ConcatSnoc(parts: seq<string>, p: string)
    ensures Concat(parts + [p]) == Concat(parts) + p
  {
    if parts == [] {
      assert parts + [p] == [p] && [p][1..] == [];
    } else {
      assert (parts + [p])[1..] == parts[1..] + [p];
      ConcatSnoc(parts[1..], p);
    }
  }

  /** Every line followed by CRLF. */
  function Terminated(lines: seq<string>): string {
    if lines == [] then "" else lines[0] + CRLF + Terminated(lines[1..])
  }

  lemma {:induction false} TerminatedIsJoin(lines: seq<string>)
    requires lines != []
    ensures Terminated(lines) == Join(lines, CRLF) + CRLF
  {
    if |lines| > 1 {
      TerminatedIsJoin(lines[1..]);
    }
  }

  lemma {:induction false} JoinSnoc(lines: seq<string>, p: string)
    requires lines != []
    ensures Join(lines + [p], CRLF) == Join(lines, CRLF) + CRLF + p
  {
    if |lines| > 1 {
      JoinSnoc(lines[1..], p);
      assert (lines + [p])[1..] == lines[1..] + [p];
    } else {
      assert (lines + [p])[1..] == [p];
    }
  }

  lemma {:induction false} SplitTerminated(lines: seq<string>)
    requires forall i :: 0 <= i < |lines| ==> Whole(lines[i], CRLF)
    ensures Split(Terminated(lines), CRLF) == lines + [""]
  {
    if lines != [] {
      SplitTerminated(lines[1..]);
      SplitAppend(lines[0], CRLF, Terminated(lines[1..]));
      assert Whole(lines[0], CRLF);
      assert lines == [lines[0]] + lines[1..];
    }
  }

  lemma {:induction false} TerminatedSnoc(lines: seq<string>, l: string)
    ensures Terminated(lines + [l]) == Terminated(lines) + l + CRLF
  {
    if lines != [] {
      assert (lines + [l])[1..] == lines[1..] + [l];
      TerminatedSnoc(lines[1..], l);
    } else {
      assert ([l])[1..] == [];
      assert [] + [l] == [l];
    }
  }

  /** The first position at which `sub` occurs, or -1. */
  function Index(s: string, sub: string): (r: int)
    requires sub != ""
    ensures -1 <= r <= |s|
    ensures r >= 0 ==> r + |sub| <= |s| && sub <= s[r..]
    decreases |s|
  {
    if |s| < |sub| then -1
    else if sub <= s then 0
    else
      var r := Index(s[1..], sub);
      if r < 0 then -1 else assert s[1..][r..] == s[r + 1..]; r + 1
  }

  lemma {:induction false} IndexAfter(p: string, s: string, sub: string)
    requires sub != "" && forall k :: 0 <= k < |p| ==> !(sub <= (p + s)[k..])
    ensures Index(p + s, sub) == if Index(s, sub) < 0 then -1 else |p| + Index(s, sub)
    decreases |p|
  {
    if p == "" {
      assert p + s == s;
    } else {
      assert (p + s)[0..] == p + s;
      var q := p[1..];
      assert (p + s)[1..] == q + s;
      forall k | 0 <= k < |q| ensures !(sub <= (q + s)[k..]) {
        assert (p + s)[k + 1..] == (q + s)[k..];
      }
      IndexAfter(q, s, sub);
    }
  }

  lemma {:induction false} IndexOf(p: string, sub: string, t: string)
    requires sub != "" && forall k :: 0 <= k < |p| ==> !(sub <= (p + sub + t)[k..])
    ensures Index(p + sub + t, sub) == |p|
  {
    assert p + sub + t == p + (sub + t);
    IndexAfter(p, sub + t, sub);
  }

  lemma {:induction false} JoinChars(parts: seq<string>, sep: string, c: char)
    requires c in Join(parts, sep)
    ensures c in sep || exists i :: 0 <= i < |parts| && c in parts[i]
  {
    if |parts| > 1 {
      if c in Join(parts[1..], sep) {
        JoinChars(parts[1..], sep, c);
        if c !in sep {
          var i :| 0 <= i < |parts[1..]| && c in parts[1..][i];
          assert c in parts[i + 1];
        }
      } else {
        assert c in parts[0] + sep;
      }
    }
  }

  lemma FirstPart(y: string, sep: string)
    requires sep != ""
    ensures Split(y, sep)[0] <= y
  {
    JoinSplit(y, sep);
    var parts := Split(y, sep);
    if |parts| > 1 {
      assert y == parts[0] + (sep + Join(parts[1..], sep));
    }
  }

  lemma {:induction false} JoinLast(parts: seq<string>, p: string, sep: string)
    ensures Join(parts + [p], sep) == (if parts == [] then "" else Join(parts, sep) + sep) + p
  {
    if |parts| > 1 {
      assert (parts + [p])[1..] == parts[1..] + [p];
      JoinLast(parts[1..], p, sep);
    } else if |parts| == 1 {
      assert (parts + [p])[1..] == [p];
    } else {
      assert parts + [p] == [p];
    }
  }
}
