/** What a verifier reads out of the signature header, tag by tag and by the tags' printed names
    (section 3.5 of RFC 6376). */
module DkimTagReading {
  import opened Common
  import opened Text
  import Base64
  import DkimBody
  import opened DkimHeaders
  import opened DkimTags
  import opened DkimSign
  import opened DkimRecompute

  // ----- Decimal numbers -----

  function DigitValue(c: char): Option<int> {
    if '0' <= c <= '9' then Some(c as int - '0' as int) else None
  }

  function ReadNat(s: string): Option<int> {
    if s == "" then None
    else
      var d := DigitValue(s[|s| - 1]);
      if |s| == 1 then d
      else
        var rest := ReadNat(s[..|s| - 1]);
        if d.None? || rest.None? then None else Some(rest.value * 10 + d.value)
  }

  function ReadInt(s: string): Option<int> {
    if s != "" && s[0] == '-' then
      var n := ReadNat(s[1..]);
      if n.None? then None else Some(-n.value)
    else ReadNat(s)
  }

  lemma {:induction false} DigitsRead(n: nat)
    ensures ReadNat(Digits(n)) == Some(n) && Digits(n) != "" && Digits(n)[0] != '-'
  {
    if n >= 10 {
      DigitsRead(n / 10);
      var s := Digits(n);
      assert s[..|s| - 1] == Digits(n / 10);
      assert s[0] == Digits(n / 10)[0];
    }
  }

  /** The printed number is the number. */
  lemma DecimalRead(n: int)
    ensures ReadInt(Decimal(n)) == Some(n)
  {
    if n < 0 {
      DigitsRead(-n);
      assert Decimal(n)[1..] == Digits(-n);
    } else {
      DigitsRead(n);
    }
  }

  // ----- Tags -----

  lemma TagRead(s: Signer, opt: Options, body: string, sig: seq<Base64.Byte>, k: Key)
    requires PlainOptions(s, opt) && k in KeySet(opt)
    ensures Lookup(Split(TagText(s, opt, body, Base64.Encode(sig)), "; "), Name(k)) ==
            Some(Value(s, opt, BodyHash(s, body), Base64.Encode(sig), k))
  {
    HeaderSplits(s, opt, body, sig);
    ReadBackTag(s, opt, BodyHash(s, body), Base64.Encode(sig), k);
  }

  lemma {:induction false} LookupMisses(keys: seq<Key>, vals: map<Key, string>, k: Key)
    requires (forall l :: l in keys ==> l in vals && !l.Other?) && k !in keys && !k.Other?
    ensures Lookup(TagParts(keys, vals), Name(k)) == None
  {
    if keys != [] {
      assert keys[0] in keys;
      TagPrefix(k, keys[0], vals[keys[0]]);
      LookupMisses(keys[1..], vals, k);
      assert TagParts(keys, vals)[1..] == TagParts(keys[1..], vals);
    }
  }

  lemma ExpiryUnlisted(opt: Options)
    requires opt.expiresIn <= 0
    ensures X !in PrintKeys(opt)
  {
    assert PrintKeys(opt) == [V, A, C, D, S, T, H, BH, B];
  }

  lemma NoExpiryTag(s: Signer, opt: Options, body: string, sig: seq<Base64.Byte>)
    requires PlainOptions(s, opt) && opt.expiresIn <= 0
    ensures Lookup(Split(TagText(s, opt, body, Base64.Encode(sig)), "; "), Name(X)) == None
  {
    HeaderSplits(s, opt, body, sig);
    ExpiryUnlisted(opt);
    LookupMisses(PrintKeys(opt), Vals(s, opt, BodyHash(s, body), Base64.Encode(sig)), X);
  }

  /** Who signed: version, algorithm, canonicalization, domain and selector. */
  lemma IdentityTags(s: Signer, opt: Options, body: string, sig: seq<Base64.Byte>)
    requires PlainOptions(s, opt)
    ensures var parts := Split(TagText(s, opt, body, Base64.Encode(sig)), "; ");
            && Lookup(parts, "v") == Some("1")
            && Lookup(parts, "a") == Some(if opt.algo != "" then opt.algo else s.algo)
            && Lookup(parts, "c") == Some("relaxed/relaxed")
            && Lookup(parts, "d") == Some(opt.domain)
            && Lookup(parts, "s") == Some(opt.selector)
  {
    TagRead(s, opt, body, sig, V);
    TagRead(s, opt, body, sig, A);
    TagRead(s, opt, body, sig, C);
    TagRead(s, opt, body, sig, D);
    TagRead(s, opt, body, sig, S);
  }

  lemma SigningTime(s: Signer, opt: Options, body: string, sig: seq<Base64.Byte>)
    requires PlainOptions(s, opt)
    ensures var t := Lookup(Split(TagText(s, opt, body, Base64.Encode(sig)), "; "), "t");
            t.Some? && ReadInt(t.value) == Some(opt.now / 1_000_000_000)
  {
    TagRead(s, opt, body, sig, T);
    NumberRead(Lookup(Split(TagText(s, opt, body, Base64.Encode(sig)), "; "), "t"), opt.now);
  }

  lemma ExpiryTime(s: Signer, opt: Options, body: string, sig: seq<Base64.Byte>)
    requires PlainOptions(s, opt) && opt.expiresIn > 0
    ensures var x := Lookup(Split(TagText(s, opt, body, Base64.Encode(sig)), "; "), "x");
            x.Some? && ReadInt(x.value) == Some((opt.now + opt.expiresIn) / 1_000_000_000)
  {
    TagRead(s, opt, body, sig, X);
    NumberRead(Lookup(Split(TagText(s, opt, body, Base64.Encode(sig)), "; "), "x"), opt.now + opt.expiresIn);
  }

  lemma NumberRead(v: Option<string>, t: int)
    requires v == Some(Decimal(Unix(t)))
    ensures v.Some? && ReadInt(v.value) == Some(t / 1_000_000_000)
  {
    DecimalRead(Unix(t));
  }

  /** When: t= reads as the signing time in seconds, and x= as the expiry, present only for a positive
      lifetime. */
  lemma TimeTags(s: Signer, opt: Options, body: string, sig: seq<Base64.Byte>)
    requires PlainOptions(s, opt)
    ensures var parts := Split(TagText(s, opt, body, Base64.Encode(sig)), "; ");
            var t, x := Lookup(parts, "t"), Lookup(parts, "x");
            && t.Some? && ReadInt(t.value) == Some(opt.now / 1_000_000_000)
            && (if opt.expiresIn > 0 then x.Some? && ReadInt(x.value) == Some((opt.now + opt.expiresIn) / 1_000_000_000)
                else x == None)
  {
    SigningTime(s, opt, body, sig);
    if opt.expiresIn > 0 {
      ExpiryTime(s, opt, body, sig);
    } else {
      NoExpiryTag(s, opt, body, sig);
    }
  }

  /** What: h= lists the caller's names, or the default five, and bh= and b= are base64 of the hash and the
      signature. */
  lemma ContentTags(s: Signer, opt: Options, body: string, sig: seq<Base64.Byte>)
    requires PlainOptions(s, opt)
    ensures var parts := Split(TagText(s, opt, body, Base64.Encode(sig)), "; ");
            && Lookup(parts, "h").Some?
            && Split(Lookup(parts, "h").value, ":") ==
               (if opt.headers != [] then opt.headers else ["from", "to", "subject", "date", "message-id"])
            && Lookup(parts, "bh").Some? && Base64.Decode(Lookup(parts, "bh").value) == Some(s.hash(DkimBody.Hashed(body)))
            && Lookup(parts, "b").Some? && Base64.Decode(Lookup(parts, "b").value) == Some(sig)
  {
    HeaderFacts(s, opt, body, sig);
    HeaderListSplits(s, opt);
    Base64.RoundTrip(s.hash(DkimBody.Hashed(body)));
    Base64.RoundTrip(sig);
  }

  /** Every header the signer returns names its signer, its times and its content under the prescribed
      tag names; the signature is over the digest of some map order of the message's fields. */
  lemma SignedHeaderReads(s: Signer, opt: Options, raw: string, header: string)
    requires Signed(Some(s), opt, raw, Ok(header)) && PlainOptions(s, opt)
    ensures var parts := Split(header, "; ");
            && Lookup(parts, "v") == Some("1") && Lookup(parts, "c") == Some("relaxed/relaxed")
            && Lookup(parts, "a") == Some(if opt.algo != "" then opt.algo else s.algo)
            && Lookup(parts, "d") == Some(opt.domain) && Lookup(parts, "s") == Some(opt.selector)
            && Lookup(parts, "t").Some? && ReadInt(Lookup(parts, "t").value) == Some(opt.now / 1_000_000_000)
  {
    var body, sig := SignedText(s, opt, raw, header);
    IdentityTags(s, opt, body, sig);
    TimeTags(s, opt, body, sig);
  }

  lemma SignedText(s: Signer, opt: Options, raw: string, header: string) returns (body: string, sig: seq<Base64.Byte>)
    requires Signed(Some(s), opt, raw, Ok(header))
    ensures header == TagText(s, opt, body, Base64.Encode(sig))
  {
    var m := SplitMessage(raw).value;
    var order :| IsKeyOrder(m.fields, order) && Ok(header) == SignWith(s, opt, Message(Grouped(m.fields, order), m.body));
    var asSeen := Message(Grouped(m.fields, order), m.body);
    body := m.body;
    sig := s.sign(Algo(s, opt), s.hash(DigestInput(s, opt, asSeen))).value;
  }

  /** Only the two algorithms of the RFCs are accepted, the signer's own where the caller names none. */
  lemma KnownAlgorithms(s: Signer, opt: Options, m: Message)
    ensures var a := if opt.algo != "" then opt.algo else s.algo;
            SignWith(s, opt, m) == Err(BadAlgorithm) <==> a != "rsa-sha256" && a != "ed25519-sha256"
  {
  }

  /** Tags of no known rank print after all the others, b= included. */
  lemma OthersPrintLast(keys: seq<Key>, i: nat, j: nat)
    requires i < j < |SortByRank(keys)| && SortByRank(keys)[i].Other?
    ensures SortByRank(keys)[j].Other?
  {
    StableSortSorts(keys, Rank);
    assert Rank(SortByRank(keys)[i]) <= Rank(SortByRank(keys)[j]);
  }
}
