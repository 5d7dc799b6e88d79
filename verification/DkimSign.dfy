/** Signing a message, and recomputing from the signed message what was signed.
    Hashing and the two signature algorithms are functions supplied with the key. */
module DkimSign {
  import opened Common
  import opened Text
  import opened Base64
  import opened DkimBody
  import opened DkimHeaders
  import opened DkimTags

  const RSA: string := "rsa-sha256"
  const ED25519: string := "ed25519-sha256"
  const HEADER: string := "DKIM-Signature"
  const HEADER_KEY: string := "dkim-signature"

  datatype Options = Options(domain: string, selector: string, algo: string, headers: seq<string>, now: int, expiresIn: int)

  /** `sign` is given the algorithm and the digest; None is a failing key. */
  datatype Signer = Signer(algo: string, hash: string -> seq<Byte>, sign: (string, seq<Byte>) -> Option<seq<Byte>>)

  function Digits(n: nat): string {
    if n < 10 then [(48 + n) as char] else Digits(n / 10) + [(48 + n % 10) as char]
  }

  function Decimal(n: int): string {
    if n < 0 then "-" + Digits(-n) else Digits(n)
  }

  /** Whole seconds of a time in nanoseconds. */
  function Unix(t: int): int {
    t / 1_000_000_000
  }

  function Algo(s: Signer, opt: Options): string {
    if opt.algo == "" then s.algo else opt.algo
  }

  function UseHeaders(opt: Options): seq<string> {
    if opt.headers == [] then ["from", "to", "subject", "date", "message-id"] else opt.headers
  }

  // ----- The tag list -----

  function PrintKeys(opt: Options): seq<Key> {
    [V, A, C, D, S, T] + (if opt.expiresIn > 0 then [X] else []) + [H, BH, B]
  }

  function Value(s: Signer, opt: Options, bodyHash: string, sig: string, k: Key): string {
    match k
    case V => "1"
    case A => Algo(s, opt)
    case C => "relaxed/relaxed"
    case D => opt.domain
    case S => opt.selector
    case T => Decimal(Unix(opt.now))
    case X => Decimal(Unix(opt.now + opt.expiresIn))
    case H => Join(UseHeaders(opt), ":")
    case BH => bodyHash
    case B => sig
    case Other(_) => ""
  }

  function KeySet(opt: Options): set<Key> {
    {V, A, C, D, S, T} + (if opt.expiresIn > 0 then {X} else {}) + {H, BH, B}
  }

  lemma KeysAreListed(opt: Options)
    ensures forall k :: k in PrintKeys(opt) <==> k in KeySet(opt)
  {
    var ks := PrintKeys(opt);
    if opt.expiresIn > 0 {
      assert ks == [V, A, C, D, S, T, X, H, BH, B];
      assert ks[6] == X && ks[7] == H && ks[8] == BH && ks[9] == B;
    } else {
      assert ks == [V, A, C, D, S, T, H, BH, B];
      assert ks[6] == H && ks[7] == BH && ks[8] == B;
    }
    assert ks[0] == V && ks[1] == A && ks[2] == C && ks[3] == D && ks[4] == S && ks[5] == T;
  }

  function Vals(s: Signer, opt: Options, bodyHash: string, sig: string): map<Key, string> {
    map k | k in KeySet(opt) :: Value(s, opt, bodyHash, sig, k)
  }

  lemma ValsKeys(s: Signer, opt: Options, bodyHash: string, sig: string)
    ensures Vals(s, opt, bodyHash, sig).Keys == KeySet(opt)
    ensures Vals(s, opt, bodyHash, sig)[B] == sig
  {
  }

  lemma KeyEnds(opt: Options)
    ensures PrintKeys(opt)[0] == V && PrintKeys(opt)[|PrintKeys(opt)| - 1] == B
  {
  }

  lemma ValsWithSignature(s: Signer, opt: Options, bodyHash: string, sig: string)
    ensures Vals(s, opt, bodyHash, "")[B := sig] == Vals(s, opt, bodyHash, sig)
  {
  }

  function BodyHash(s: Signer, body: string): string {
    Encode(s.hash(Hashed(body)))
  }

  function TagText(s: Signer, opt: Options, body: string, sig: string): string {
    KeysAreListed(opt);
    Render(PrintKeys(opt), Vals(s, opt, BodyHash(s, body), sig))
  }

  lemma KeysRanked(opt: Options)
    ensures Ranked(PrintKeys(opt), Rank) && SortByRank(PrintKeys(opt)) == PrintKeys(opt)
    ensures forall i, j :: 0 <= i < j < |PrintKeys(opt)| ==> PrintKeys(opt)[i] != PrintKeys(opt)[j]
  {
    var ks := PrintKeys(opt);
    forall i | 0 <= i < |ks| ensures Rank(ks[i]) == if i < 6 || opt.expiresIn > 0 then i + 1 else i + 2 {
    }
    RankedStays(ks, Rank);
  }

  /** The string whose digest is signed. */
  function DigestInput(s: Signer, opt: Options, m: Message): string {
    CanonHeaders(m.fields, UseHeaders(opt)) + HEADER_KEY + ":" + CanonValue(TagText(s, opt, m.body, ""))
  }

  function SignWith(s: Signer, opt: Options, m: Message): Result<string, Error> {
    var algo := Algo(s, opt);
    if algo != RSA && algo != ED25519 then Err(BadAlgorithm)
    else
      var sig := s.sign(algo, s.hash(DigestInput(s, opt, m)));
      if sig.None? then Err(KeyFailure) else Ok(TagText(s, opt, m.body, Encode(sig.value)))
  }

  /** The outcome of signing: errors first, then the signature over the fields in some map order. */
  ghost predicate Signed(signer: Option<Signer>, opt: Options, raw: string, r: Result<string, Error>) {
    if signer.None? then r == Err(NilSigner)
    else if opt.domain == "" || opt.selector == "" then r == Err(MissingDomain)
    else match SplitMessage(raw)
      case Err(e) => r == Err(e)
      case Ok(m) => exists order :: IsKeyOrder(m.fields, order)
                      && r == SignWith(signer.value, opt, Message(Grouped(m.fields, order), m.body))
  }

  method Sign(signer: Option<Signer>, opt: Options, raw: string) returns (r: Result<string, Error>)
    ensures Signed(signer, opt, raw, r)
  {
    if signer.None? {
      return Err(NilSigner);
    }
    if opt.domain == "" || opt.selector == "" {
      return Err(MissingDomain);
    }
    var s := signer.value;
    var split := SplitMessage(raw);
    if split.Err? {
      return Err(split.error);
    }
    ghost var order: seq<string> := [];
    var fields := [];
    var body := split.value.body;
    order, fields := IterateMap(split.value.fields);
    r := SignFields(s, opt, fields, body);
    assert IsKeyOrder(split.value.fields, order) && fields == Grouped(split.value.fields, order);
  }

  /** Go's map iteration: the keys in an unspecified order, each key's values in document order. */
  method IterateMap(doc: seq<Field>) returns (ghost order: seq<string>, fields: seq<Field>)
    ensures IsKeyOrder(doc, order) && fields == Grouped(doc, order)
  {
    var left := Names(doc);
    order, fields := [], [];
    while left != {}
      invariant left <= Names(doc) && fields == Grouped(doc, order)
      invariant forall i, j :: 0 <= i < j < |order| ==> order[i] != order[j]
      invariant forall k :: k in order <==> k in Names(doc) - left
      decreases |left|
    {
      var k :| k in left;
      GroupedSnoc(doc, order, k);
      assert k !in order;
      fields := fields + FieldsNamed(doc, k);
      order := order + [k];
      left := left - {k};
    }
  }

  lemma {:induction false} GroupedSnoc(doc: seq<Field>, order: seq<string>, k: string)
    ensures Grouped(doc, order + [k]) == Grouped(doc, order) + FieldsNamed(doc, k)
  {
    if order == [] {
      assert order + [k] == [k] && [k][1..] == [];
    } else {
      assert (order + [k])[1..] == order[1..] + [k];
      GroupedSnoc(doc, order[1..], k);
    }
  }

  method SignFields(s: Signer, opt: Options, fields: seq<Field>, body: string) returns (r: Result<string, Error>)
    ensures r == SignWith(s, opt, Message(fields, body))
  {
    var tag, input := Prepare(s, opt, fields, body);
    var digest := s.hash(input);
    var algo := Algo(s, opt);
    if algo != RSA && algo != ED25519 {
      return Err(BadAlgorithm);
    }
    var sig := s.sign(algo, digest);
    if sig.None? {
      return Err(KeyFailure);
    }
    var full := Complete(tag, s, opt, body, Encode(sig.value));
    return Ok(full);
  }

  /** The tags with b= blank, and the string to digest. */
  method Prepare(s: Signer, opt: Options, fields: seq<Field>, body: string) returns (tag: TagBuilder, input: string)
    ensures fresh(tag) && tag.Valid() && tag.keys == PrintKeys(opt) && tag.vals == Vals(s, opt, BodyHash(s, body), "")
    ensures input == DigestInput(s, opt, Message(fields, body))
  {
    var hashed := CanonicalBody(body);
    var canonHeaders := CanonHeadersRelaxed(fields, UseHeaders(opt));
    tag := BuildTags(s, opt, Encode(s.hash(hashed)));
    var blank := PrintAll(tag, s, opt, body, "");
    var value := CanonRelaxedValue(blank);
    input := canonHeaders + HEADER_KEY + ":" + value;
  }

  /** Fills in b= and prints the list. */
  method Complete(tag: TagBuilder, s: Signer, opt: Options, body: string, sig: string) returns (full: string)
    requires tag.Valid() && tag.keys == PrintKeys(opt) && tag.vals == Vals(s, opt, BodyHash(s, body), "")
    modifies tag
    ensures full == TagText(s, opt, body, sig)
  {
    ValsWithSignature(s, opt, BodyHash(s, body), sig);
    ValsKeys(s, opt, BodyHash(s, body), "");
    tag.Set(B, sig);
    full := PrintAll(tag, s, opt, body, sig);
  }

  method PrintAll(tag: TagBuilder, s: Signer, opt: Options, body: string, sig: string) returns (text: string)
    requires tag.Valid() && tag.keys == PrintKeys(opt) && tag.vals == Vals(s, opt, BodyHash(s, body), sig)
    ensures text == TagText(s, opt, body, sig)
  {
    KeysRanked(opt);
    text := tag.Print();
  }

  /** Three tags not yet set, in order. */
  method SetThree(tag: TagBuilder, k: Key, kv: string, l: Key, lv: string, m: Key, mv: string)
    requires tag.Valid() && k != l && k != m && l != m
    requires k !in tag.vals && l !in tag.vals && m !in tag.vals
    modifies tag
    ensures tag.Valid() && tag.keys == old(tag.keys) + [k, l, m]
    ensures tag.vals == old(tag.vals)[k := kv][l := lv][m := mv]
  {
    tag.Set(k, kv);
    tag.Set(l, lv);
    tag.Set(m, mv);
  }

  method SetIdentity(tag: TagBuilder, algo: string, domain: string, selector: string, stamp: string)
    requires tag.Valid() && tag.keys == [] && tag.vals == map[]
    modifies tag
    ensures tag.Valid() && tag.keys == [V, A, C, D, S, T]
    ensures tag.vals == map[V := "1", A := algo, C := "relaxed/relaxed", D := domain, S := selector, T := stamp]
  {
    SetThree(tag, V, "1", A, algo, C, "relaxed/relaxed");
    SetThree(tag, D, domain, S, selector, T, stamp);
  }

  method SetContent(tag: TagBuilder, expiry: Option<string>, headers: string, bodyHash: string)
    requires tag.Valid() && X !in tag.vals && H !in tag.vals && BH !in tag.vals && B !in tag.vals
    modifies tag
    ensures tag.Valid() && tag.keys == old(tag.keys) + (if expiry.Some? then [X] else []) + [H, BH, B]
    ensures tag.vals == (if expiry.Some? then old(tag.vals)[X := expiry.value] else old(tag.vals))[H := headers][BH := bodyHash][B := ""]
  {
    if expiry.Some? {
      tag.Set(X, expiry.value);
    }
    SetThree(tag, H, headers, BH, bodyHash, B, "");
  }

  /** A builder holding every tag, with b= blank. */
  method BuildTags(s: Signer, opt: Options, bodyHash: string) returns (tag: TagBuilder)
    ensures fresh(tag) && tag.Valid() && tag.keys == PrintKeys(opt)
    ensures tag.vals == Vals(s, opt, bodyHash, "")
  {
    tag := new TagBuilder();
    SetIdentity(tag, Algo(s, opt), opt.domain, opt.selector, Decimal(Unix(opt.now)));
    var expiry := if opt.expiresIn > 0 then Some(Decimal(Unix(opt.now + opt.expiresIn))) else None;
    SetContent(tag, expiry, Join(UseHeaders(opt), ":"), bodyHash);
    BuiltVals(s, opt, bodyHash, expiry);
  }

  /** The builder's map, for any values. */
  function Collected(v: string, a: string, c: string, d: string, s: string, t: string, x: Option<string>,
                     h: string, bh: string): map<Key, string> {
    var id := map[V := v, A := a, C := c, D := d, S := s, T := t];
    (if x.Some? then id[X := x.value] else id)[H := h][BH := bh][B := ""]
  }

  lemma CollectedAt(v: string, a: string, c: string, d: string, s: string, t: string, x: Option<string>, h: string, bh: string)
    ensures var m := Collected(v, a, c, d, s, t, x, h, bh);
            && m.Keys == {V, A, C, D, S, T} + (if x.Some? then {X} else {}) + {H, BH, B}
            && m[V] == v && m[A] == a && m[C] == c && m[D] == d && m[S] == s && m[T] == t
            && (x.Some? ==> m[X] == x.value) && m[H] == h && m[BH] == bh && m[B] == ""
  {
  }

  lemma BuiltVals(s: Signer, opt: Options, bodyHash: string, x: Option<string>)
    requires x == if opt.expiresIn > 0 then Some(Decimal(Unix(opt.now + opt.expiresIn))) else None
    ensures Collected("1", Algo(s, opt), "relaxed/relaxed", opt.domain, opt.selector, Decimal(Unix(opt.now)), x,
                      Join(UseHeaders(opt), ":"), bodyHash) == Vals(s, opt, bodyHash, "")
  {
    var h, t := Join(UseHeaders(opt), ":"), Decimal(Unix(opt.now));
    CollectedAt("1", Algo(s, opt), "relaxed/relaxed", opt.domain, opt.selector, t, x, h, bodyHash);
  }

  function Prepend(header: string, raw: string): string {
    HEADER + ": " + header + CRLF + raw
  }

  method SignAndPrepend(signer: Option<Signer>, opt: Options, raw: string) returns (out: Result<string, Error>)
    ensures exists r :: Signed(signer, opt, raw, r) && out == if r.Err? then r else Ok(Prepend(r.value, raw))
  {
    var r := Sign(signer, opt, raw);
    if r.Err? {
      return r;
    }
    var text := HEADER + ": ";
    text := text + r.value;
    text := text + CRLF;
    text := text + raw;
    return Ok(text);
  }
}
