/** Standard base64 (section 4 of RFC 4648) and its inverse. */
module Base64 {
  import opened Common

  type Byte = b: int | 0 <= b < 256

  function Symbol(i: int): char
    requires 0 <= i < 64
  {
    if i < 26 then (i + 65) as char
    else if i < 52 then (i + 71) as char
    else if i < 62 then (i - 4) as char
    else if i == 62 then '+' else '/'
  }

  function Value(c: char): Option<int> {
    if 'A' <= c <= 'Z' then Some(c as int - 65)
    else if 'a' <= c <= 'z' then Some(c as int - 71)
    else if '0' <= c <= '9' then Some(c as int + 4)
    else if c == '+' then Some(62) else if c == '/' then Some(63) else None
  }

  function Quad(a: Byte, b: Byte, c: Byte): string {
    [Symbol(a / 4), Symbol(a % 4 * 16 + b / 16), Symbol(b % 16 * 4 + c / 64), Symbol(c % 64)]
  }

  function Encode(d: seq<Byte>): string {
    if d == [] then ""
    else if |d| == 1 then Quad(d[0], 0, 0)[..2] + "=="
    else if |d| == 2 then Quad(d[0], d[1], 0)[..3] + "="
    else Quad(d[0], d[1], d[2]) + Encode(d[3..])
  }

  /** The three bytes a group of four symbols stands for. */
  function Triple(p: int, q: int, r: int, s: int): (Byte, Byte, Byte)
    requires 0 <= p < 64 && 0 <= q < 64 && 0 <= r < 64 && 0 <= s < 64
  {
    (p * 4 + q / 16, q % 16 * 16 + r / 4, r % 4 * 64 + s)
  }

  function Decode(s: string): Option<seq<Byte>> {
    if s == "" then Some([])
    else if |s| < 4 then None
    else
      var p, q, r, t := Value(s[0]), Value(s[1]), Value(s[2]), Value(s[3]);
      if p.None? || q.None? then None
      else if |s| == 4 && s[2] == '=' && s[3] == '=' then Some([Triple(p.value, q.value, 0, 0).0])
      else if r.None? then None
      else if |s| == 4 && s[3] == '=' then
        var g := Triple(p.value, q.value, r.value, 0);
        Some([g.0, g.1])
      else if t.None? then None
      else
        var rest := Decode(s[4..]);
        var g := Triple(p.value, q.value, r.value, t.value);
        if rest.None? then None else Some([g.0, g.1, g.2] + rest.value)
  }

  lemma SymbolValue(i: int)
    requires 0 <= i < 64
    ensures Value(Symbol(i)) == Some(i) && Symbol(i) != '='
  {
  }

  lemma TripleOfQuad(a: Byte, b: Byte, c: Byte)
    ensures Triple(a / 4, a % 4 * 16 + b / 16, b % 16 * 4 + c / 64, c % 64) == (a, b, c)
  {
  }

  lemma QuadValues(a: Byte, b: Byte, c: Byte)
    ensures var g := Quad(a, b, c);
            && |g| == 4 && g[0] != '=' && g[1] != '=' && g[2] != '=' && g[3] != '='
            && Value(g[0]) == Some(a / 4) && Value(g[1]) == Some(a % 4 * 16 + b / 16)
            && Value(g[2]) == Some(b % 16 * 4 + c / 64) && Value(g[3]) == Some(c % 64)
  {
    SymbolValue(a / 4);
    SymbolValue(a % 4 * 16 + b / 16);
    SymbolValue(b % 16 * 4 + c / 64);
    SymbolValue(c % 64);
  }

  lemma OneByte(a: Byte)
    ensures Decode(Quad(a, 0, 0)[..2] + "==") == Some([a])
  {
    QuadValues(a, 0, 0);
    TripleOfQuad(a, 0, 0);
    var g := Quad(a, 0, 0);
    var s := g[..2] + "==";
    assert |s| == 4 && s[0] == g[0] && s[1] == g[1] && s[2] == '=' && s[3] == '=';
  }

  lemma TwoBytes(a: Byte, b: Byte)
    ensures Decode(Quad(a, b, 0)[..3] + "=") == Some([a, b])
  {
    QuadValues(a, b, 0);
    TripleOfQuad(a, b, 0);
    var g := Quad(a, b, 0);
    var s := g[..3] + "=";
    assert |s| == 4 && s[0] == g[0] && s[1] == g[1] && s[2] == g[2] && s[3] == '=';
  }

  lemma ThreeBytes(a: Byte, b: Byte, c: Byte, rest: string)
    ensures Decode(Quad(a, b, c) + rest) == if Decode(rest).None? then None else Some([a, b, c] + Decode(rest).value)
  {
    QuadValues(a, b, c);
    TripleOfQuad(a, b, c);
    var g := Quad(a, b, c);
    var s := g + rest;
    assert s[4..] == rest && s[0] == g[0] && s[1] == g[1] && s[2] == g[2] && s[3] == g[3];
  }

  lemma {:induction false} RoundTrip(d: seq<Byte>)
    ensures Decode(Encode(d)) == Some(d)
    decreases |d|
  {
    if |d| >= 3 {
      RoundTrip(d[3..]);
      ThreeBytes(d[0], d[1], d[2], Encode(d[3..]));
      assert d == [d[0], d[1], d[2]] + d[3..];
    } else if |d| == 2 {
      TwoBytes(d[0], d[1]);
      assert d == [d[0], d[1]];
    } else if |d| == 1 {
      OneByte(d[0]);
      assert d == [d[0]];
    }
  }

  /** The alphabet of table 1 of RFC 4648: upper case, lower case and digits, each in order, then + and /. */
  lemma SymbolTable()
    ensures Symbol(0) == 'A' && Symbol(25) == 'Z' && Symbol(26) == 'a' && Symbol(51) == 'z'
    ensures Symbol(52) == '0' && Symbol(61) == '9' && Symbol(62) == '+' && Symbol(63) == '/'
    ensures forall i :: 0 < i < 62 && i != 26 && i != 52 ==> Symbol(i) as int == Symbol(i - 1) as int + 1
  {
  }

  /** Each group of three bytes is its 24 bits in four symbols of six. */
  lemma QuadBits(a: Byte, b: Byte, c: Byte)
    ensures var g := Quad(a, b, c);
            |g| == 4 && forall i :: 0 <= i < 4 ==> Value(g[i]).Some?
    ensures var g := Quad(a, b, c);
            ((Value(g[0]).value * 64 + Value(g[1]).value) * 64 + Value(g[2]).value) * 64 + Value(g[3]).value
            == (a * 256 + b) * 256 + c
  {
    QuadValues(a, b, c);
  }

  lemma {:induction false} EncodeChars(d: seq<Byte>, c: char)
    requires c in Encode(d)
    ensures Value(c).Some? || c == '='
    decreases |d|
  {
    QuadValues(d[0], if |d| > 1 then d[1] else 0, if |d| > 2 then d[2] else 0);
    if |d| >= 3 && c !in Quad(d[0], d[1], d[2]) {
      EncodeChars(d[3..], c);
    }
  }

  // ----- The unpadded URL-safe form -----

  function UrlSafe(c: char): char {
    if c == '+' then '-' else if c == '/' then '_' else c
  }

  function UrlQuad(a: Byte, b: Byte, c: Byte): string {
    var g := Quad(a, b, c);
    [UrlSafe(g[0]), UrlSafe(g[1]), UrlSafe(g[2]), UrlSafe(g[3])]
  }

  function EncodeRawUrl(d: seq<Byte>): string {
    if d == [] then ""
    else if |d| == 1 then UrlQuad(d[0], 0, 0)[..2]
    else if |d| == 2 then UrlQuad(d[0], d[1], 0)[..3]
    else UrlQuad(d[0], d[1], d[2]) + EncodeRawUrl(d[3..])
  }

  /** The URL form is the standard one with - for +, _ for / and the padding left off. */
  lemma {:induction false} UrlFormOfBase64(d: seq<Byte>, i: nat)
    requires i < |EncodeRawUrl(d)|
    ensures i < |Encode(d)| && Encode(d)[i] != '='
    ensures EncodeRawUrl(d)[i] == if Encode(d)[i] == '+' then '-' else if Encode(d)[i] == '/' then '_' else Encode(d)[i]
    decreases |d|
  {
    QuadValues(d[0], if |d| > 1 then d[1] else 0, if |d| > 2 then d[2] else 0);
    if |d| >= 3 && i >= 4 {
      UrlFormOfBase64(d[3..], i - 4);
    }
  }
}
