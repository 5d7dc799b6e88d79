/** The mail_protected_links table: expiring links with a bounded number of views. */
module Links {
  import opened Common
  import opened Text
  import Base64

  const TOKEN_LENGTH: nat := 43
  const DAY: int := 24 * 3600 * 1_000_000
  const MAX_TTL: int := 30 * DAY
  const DEFAULT_PURGE_LIMIT: nat := 100
  const MAX_PURGE_LIMIT: nat := 1000

  datatype Input = Input(userId: nat, blobRef: string, recipients: string, subject: string, kdf: string,
                         salt: string, params: string, wrappedKey: string, ttl: int, maxViews: int)

  datatype Link = Link(input: Input, createdAt: int, expiresAt: int, maxViews: nat, views: nat, burnedAt: Option<int>)

  datatype Error = NotFound | Burned | Invalid(msg: string) | Database

  datatype Consumed = Consumed(row: Link, viewsRemaining: int, burned: bool)

  type Table = map<string, Link>

  predicate TokenChar(c: char) {
    'A' <= c <= 'Z' || 'a' <= c <= 'z' || '0' <= c <= '9' || c == '-' || c == '_'
  }

  predicate ValidToken(s: string) {
    |s| == TOKEN_LENGTH && forall i :: 0 <= i < |s| ==> TokenChar(s[i])
  }

  method ValidateToken(s: string) returns (ok: bool)
    ensures ok <==> ValidToken(s)
  {
    if |s| != TOKEN_LENGTH {
      return false;
    }
    for i := 0 to |s|
      invariant forall j :: 0 <= j < i ==> TokenChar(s[j])
    {
      var r := s[i];
      if 'A' <= r <= 'Z' {
      } else if 'a' <= r <= 'z' {
      } else if '0' <= r <= '9' {
      } else if r == '-' || r == '_' {
      } else {
        return false;
      }
    }
    return true;
  }

  lemma {:induction false} RawUrlChars(d: seq<Base64.Byte>)
    ensures |Base64.EncodeRawUrl(d)| == (|d| * 8 + 5) / 6
    ensures forall i :: 0 <= i < |Base64.EncodeRawUrl(d)| ==> TokenChar(Base64.EncodeRawUrl(d)[i])
    decreases |d|
  {
    if d != [] {
      Base64.QuadValues(d[0], if |d| > 1 then d[1] else 0, if |d| > 2 then d[2] else 0);
      if |d| >= 3 {
        RawUrlChars(d[3..]);
      }
    }
  }

  /** Every token NewToken can draw passes ValidateToken. */
  lemma NewTokenIsValid(random: seq<Base64.Byte>)
    requires |random| == 32
    ensures ValidToken(Base64.EncodeRawUrl(random))
  {
    RawUrlChars(random);
  }

  // ----- Row-level meaning of the statements -----

  function NewLink(input: Input, now: int): Link
    requires input.maxViews >= 0
  {
    Link(if input.params == "" then input.(params := "{}") else input, now, now + input.ttl, input.maxViews, 0, None)
  }

  /** The WHERE clause of the consuming UPDATE. */
  predicate Openable(r: Link, now: int) {
    r.burnedAt.None? && r.expiresAt > now && (r.maxViews == 0 || r.views < r.maxViews)
  }

  function Viewed(r: Link, now: int): Link {
    r.(views := r.views + 1,
       burnedAt := if r.maxViews > 0 && r.views + 1 >= r.maxViews then Some(now) else r.burnedAt)
  }

  /** The WHERE clause of the purging DELETE. */
  predicate Purgeable(r: Link, now: int) {
    r.expiresAt < now || (r.maxViews > 0 && r.views >= r.maxViews)
  }

  function PurgeableTokens(t: Table, now: int): set<string> {
    set k | k in t && Purgeable(t[k], now)
  }

  function EffectivePurgeLimit(limit: int): nat {
    if limit <= 0 || limit > MAX_PURGE_LIMIT then DEFAULT_PURGE_LIMIT else limit
  }

  ghost predicate IsPurgeChoice(t: Table, now: int, n: nat, victims: set<string>) {
    && victims <= PurgeableTokens(t, now)
    && |victims| <= n
    && (|victims| < n ==> victims == PurgeableTokens(t, now))
  }

  /** The `expired` flag of the meta endpoint. */
  predicate MetaExpired(r: Link, now: int) {
    r.burnedAt.Some? || now > r.expiresAt || (r.maxViews > 0 && r.views >= r.maxViews)
  }

  predicate InputOk(i: Input) {
    i.userId != 0 && i.kdf != "" && i.salt != "" && i.wrappedKey != "" && 0 < i.ttl <= MAX_TTL && i.maxViews >= 0
  }

  /** burned_at is set exactly when a bounded link has used all its views. */
  predicate Consistent(r: Link) {
    && (r.maxViews > 0 ==> r.views <= r.maxViews)
    && (r.burnedAt.Some? <==> r.maxViews > 0 && r.views == r.maxViews)
  }

  // ----- The store -----

  class LinkStore {
    var rows: Table

    constructor ()
      ensures rows == map[]
    {
      rows := map[];
    }

    /** `token` is the freshly drawn random token. */
    method Create(input: Input, token: string, now: int) returns (r: Result<Link, Error>)
      requires ValidToken(token)
      modifies this
      ensures r.Ok? <==> InputOk(input) && token !in old(rows)
      ensures r.Ok? ==> rows == old(rows)[token := r.value] && Consistent(r.value) && r.value.views == 0
                        && r.value.expiresAt == now + input.ttl && Openable(r.value, now)
      ensures r.Err? ==> rows == old(rows)
      ensures r.Ok? ==>
                && r.value == NewLink(input, now)
                && r.value.createdAt == now && r.value.maxViews == input.maxViews && r.value.burnedAt.None?
                && var kept := r.value.input;
                   && kept.userId == input.userId && kept.blobRef == input.blobRef && kept.kdf == input.kdf
                   && kept.salt == input.salt && kept.wrappedKey == input.wrappedKey
                   && kept.recipients == input.recipients && kept.subject == input.subject
                   && kept.params == (if input.params == "" then "{}" else input.params)
      ensures r.Ok? <==>
                && input.userId != 0 && input.kdf != "" && input.salt != "" && input.wrappedKey != ""
                && 0 < input.ttl <= 2_592_000_000_000 && input.maxViews >= 0 && token !in old(rows)
    {
      if input.userId == 0 {
        return Err(Invalid("user_id required"));
      }
      if input.kdf == "" || input.salt == "" || input.wrappedKey == "" {
        return Err(Invalid("kdf, salt, wrapped_msg_key required"));
      }
      if input.ttl <= 0 || input.ttl > MAX_TTL {
        return Err(Invalid("ttl must be in (0, 30d]"));
      }
      if input.maxViews < 0 {
        return Err(Invalid("max_views must be >= 0"));
      }
      if token in rows {
        return Err(Database);
      }
      rows := rows[token := NewLink(input, now)];
      ValidTokenUntrimmed(token);
      r := Get(token);
    }

    method Get(rawToken: string) returns (r: Result<Link, Error>)
      ensures var token := TrimSpace(rawToken);
              r == if ValidToken(token) && token in rows then Ok(rows[token]) else Err(NotFound)
    {
      var token := TrimSpace(rawToken);
      var ok := ValidateToken(token);
      if !ok || token !in rows {
        return Err(NotFound);
      }
      return Ok(rows[token]);
    }

    method ConsumeView(rawToken: string, now: int) returns (r: Result<Consumed, Error>)
      modifies this
      ensures var token := TrimSpace(rawToken);
              if !ValidToken(token) || token !in old(rows) then r == Err(NotFound) && rows == old(rows)
              else if !Openable(old(rows)[token], now) then r == Err(Burned) && rows == old(rows)
              else
                && rows == old(rows)[token := Viewed(old(rows)[token], now)]
                && r.Ok? && r.value.row == rows[token]
                && r.value.viewsRemaining == (if r.value.row.maxViews > 0 then r.value.row.maxViews - r.value.row.views else 0)
                && (r.value.burned <==> r.value.row.maxViews > 0 && r.value.row.burnedAt.Some?)
    {
      var token := TrimSpace(rawToken);
      var ok := ValidateToken(token);
      if !ok {
        return Err(NotFound);
      }
      if token !in rows || !Openable(rows[token], now) {
        ValidTokenUntrimmed(token);
        var g := Get(token);
        return Err(if g.Err? then NotFound else Burned);
      }
      rows := rows[token := Viewed(rows[token], now)];
      var row := rows[token];
      var remaining := 0;
      var burned := false;
      if row.maxViews > 0 {
        remaining := row.maxViews - row.views;
        if remaining < 0 {
          remaining := 0;
        }
        burned := row.burnedAt.Some?;
      }
      return Ok(Consumed(row, remaining, burned));
    }

    method Delete(token: string)
      modifies this
      ensures rows == old(rows) - {token}
      ensures token !in rows && forall k :: k in old(rows) && k != token ==> k in rows && rows[k] == old(rows)[k]
    {
      rows := rows - {token};
    }

    method PurgeExpired(limit: int, now: int) returns (victims: set<string>)
      modifies this
      ensures IsPurgeChoice(old(rows), now, EffectivePurgeLimit(limit), victims)
      ensures rows == old(rows) - victims
      ensures |victims| <= (if 1 <= limit <= 1000 then limit else 100)
      ensures forall k :: k in victims ==>
                && k in old(rows)
                && (old(rows)[k].expiresAt < now || (old(rows)[k].maxViews > 0 && old(rows)[k].views >= old(rows)[k].maxViews))
      ensures |victims| < (if 1 <= limit <= 1000 then limit else 100) ==> forall k :: k in rows ==>
                rows[k].expiresAt >= now && (rows[k].maxViews == 0 || rows[k].views < rows[k].maxViews)
    {
      var n := EffectivePurgeLimit(limit);
      var left := PurgeableTokens(rows, now);
      victims := {};
      while |victims| < n && left != {}
        invariant rows == old(rows) && victims !! left && |victims| <= n
        invariant victims + left == PurgeableTokens(rows, now)
        decreases |left|
      {
        var k :| k in left;
        victims, left := victims + {k}, left - {k};
      }
      rows := rows - victims;
    }
  }

  lemma ValidTokenUntrimmed(token: string)
    requires ValidToken(token)
    ensures TrimSpace(token) == token
  {
    assert forall c :: TokenChar(c) ==> c !in SPACES;
    assert TokenChar(token[0]) && TokenChar(token[|token| - 1]);
  }

  // ----- The meta flag against the consuming statement -----

  /** The meta flag says the opposite of what an open would do, except for a link with
      views left at the very instant it expires, which meta still calls alive. */
  lemma MetaAgreesExceptAtExpiry(r: Link, now: int)
    requires Consistent(r)
    ensures (MetaExpired(r, now) <==> !Openable(r, now)) <==> !(now == r.expiresAt && r.burnedAt.None?)
  {
  }
}
