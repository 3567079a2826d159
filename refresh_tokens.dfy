/** The refresh_tokens table and RefreshTokenService: records are created
    unrevoked, found by their unique token id, and revoked one at a time or
    all of a user's at once. Nothing ever clears the revoked flag. */
module RefreshTokens {
  import opened Wrappers
  import opened JavaLang
  import opened Users

  /** The persisted fields of a refresh token record (its UUID key left
      out; the unique token id stands in for the row). */
  datatype TokenRow = TokenRow(
    user: User,
    tokenId: string,
    tokenHash: string,
    issuedAt: Instant,
    expiresAt: Instant,
    revoked: bool)

  /** The table, keyed by token id (the unique index ux_refresh_tokens_token_id). */
  type TokenTable = map<string, TokenRow>

  /** The unique index refused a second record with the same token id. */
  datatype RefreshTokenError = DuplicateTokenId

  ghost predicate ValidTokens(t: TokenTable)
  {
    forall k :: k in t ==> t[k].tokenId == k
  }

  /** The only change a record ever undergoes: its revoked flag may be set,
      never cleared. */
  predicate RowStep(a: TokenRow, b: TokenRow)
  {
    b == a.(revoked := b.revoked) && (a.revoked ==> b.revoked)
  }

  /** Every record survives, changed at most by RowStep. */
  ghost predicate AppendOnly(t: TokenTable, t': TokenTable)
  {
    forall k :: k in t ==> k in t' && RowStep(t[k], t'[k])
  }

  lemma AppendOnlyTransitive(t1: TokenTable, t2: TokenTable, t3: TokenTable)
    requires AppendOnly(t1, t2) && AppendOnly(t2, t3)
    ensures AppendOnly(t1, t3)
  {
    forall k | k in t1
      ensures k in t3 && RowStep(t1[k], t3[k])
    {
      assert RowStep(t1[k], t2[k]) && RowStep(t2[k], t3[k]);
    }
  }

  /** `create`: a new, unrevoked record for the user with the given id, hash
      and expiry, issued now. */
  function CreateIn(t: TokenTable, user: User, tokenId: string, tokenHash: string,
                    expiresAt: Instant, now: Instant): (r: Result<TokenTable, RefreshTokenError>)
    ensures r.Failure? <==> tokenId in t
    ensures r.Success? ==>
      && r.value.Keys == t.Keys + {tokenId}
      && r.value[tokenId] == TokenRow(user, tokenId, tokenHash, now, expiresAt, false)
      && (forall k :: k in t ==> r.value[k] == t[k])
    ensures r.Success? ==> AppendOnly(t, r.value)
    ensures ValidTokens(t) && r.Success? ==> ValidTokens(r.value)
  {
    if tokenId in t then Failure(DuplicateTokenId)
    else Success(t[tokenId := TokenRow(user, tokenId, tokenHash, now, expiresAt, false)])
  }

  /** `findByTokenId`. */
  function FindByTokenIdIn(t: TokenTable, tokenId: string): (r: Option<TokenRow>)
    ensures r.Some? <==> tokenId in t
    ensures ValidTokens(t) && r.Some? ==> r.value.tokenId == tokenId
  {
    if tokenId in t then Some(t[tokenId]) else None
  }

  /** `revoke`: that record's flag is set; no other field or record changes. */
  function RevokeIn(t: TokenTable, tokenId: string): (r: TokenTable)
    ensures r.Keys == t.Keys
    ensures tokenId in t ==> r[tokenId] == t[tokenId].(revoked := true)
    ensures forall k :: k in t && k != tokenId ==> r[k] == t[k]
    ensures AppendOnly(t, r)
    ensures ValidTokens(t) ==> ValidTokens(r)
  {
    if tokenId in t then t[tokenId := t[tokenId].(revoked := true)] else t
  }

  /** Revoking twice is revoking once. */
  lemma RevokeIdempotent(t: TokenTable, tokenId: string)
    ensures RevokeIn(RevokeIn(t, tokenId), tokenId) == RevokeIn(t, tokenId)
  {
  }

  /** `revokeAll(user)`: every record of the user is revoked, every other
      user's record is left as it was. */
  function RevokeAllIn(t: TokenTable, userId: UserId): (r: TokenTable)
    ensures r.Keys == t.Keys
    ensures forall k :: k in r && r[k].user.id == userId ==> r[k].revoked
    ensures forall k :: k in t && t[k].user.id != userId ==> r[k] == t[k]
    ensures AppendOnly(t, r)
    ensures ValidTokens(t) ==> ValidTokens(r)
  {
    map k | k in t :: if t[k].user.id == userId then t[k].(revoked := true) else t[k]
  }

  /** Revoking all of a user's tokens twice is doing it once. */
  lemma RevokeAllIdempotent(t: TokenTable, userId: UserId)
    ensures RevokeAllIn(RevokeAllIn(t, userId), userId) == RevokeAllIn(t, userId)
  {
    var r := RevokeAllIn(t, userId);
    assert forall k :: k in r ==> RevokeAllIn(r, userId)[k] == r[k];
  }

  /** The RefreshToken entity. */
  class RefreshToken {
    const user: User
    const tokenId: string
    const tokenHash: string
    const issuedAt: Instant
    const expiresAt: Instant
    var revoked: bool

    /** `new RefreshToken()`, its setters, and the creation timestamp the
        save fills in; a new record is not revoked. */
    constructor (user: User, tokenId: string, tokenHash: string, expiresAt: Instant, now: Instant)
      ensures Row() == TokenRow(user, tokenId, tokenHash, now, expiresAt, false)
    {
      this.user := user;
      this.tokenId := tokenId;
      this.tokenHash := tokenHash;
      this.issuedAt := now;
      this.expiresAt := expiresAt;
      revoked := false;
    }

    function Row(): TokenRow
      reads this
    {
      TokenRow(user, tokenId, tokenHash, issuedAt, expiresAt, revoked)
    }

    /** `setRevoked`: only the flag changes. */
    method SetRevoked(revoked: bool)
      modifies this
      ensures Row() == old(Row()).(revoked := revoked)
    {
      this.revoked := revoked;
    }
  }

  /** RefreshTokenService over the repository's records, found by token id. */
  class RefreshTokenService {
    var tokens: map<string, RefreshToken>
    /** The rows of the stored records, kept in step with the entities. */
    ghost var table: TokenTable

    constructor ()
      ensures tokens == map[] && table == map[]
    {
      tokens := map[];
      table := map[];
    }

    /** Each record sits under its own token id, and `table` holds, under
        the same ids, the rows the entities hold. */
    ghost predicate Valid()
      reads this, tokens.Values
    {
      && tokens.Keys == table.Keys
      && (forall k :: k in tokens ==> tokens[k].tokenId == k && tokens[k].Row() == table[k])
    }

    /** `create`. */
    method Create(user: User, tokenId: string, tokenHash: string, expiresAt: Instant, now: Instant)
      returns (r: Result<RefreshToken, RefreshTokenError>)
      requires Valid()
      modifies this
      ensures Valid()
      ensures var s := CreateIn(old(table), user, tokenId, tokenHash, expiresAt, now);
              && (s.Success? ==> r.Success? && fresh(r.value) && tokens == old(tokens)[tokenId := r.value]
                                 && table == s.value)
              && (s.Failure? ==> r == Failure(s.error) && tokens == old(tokens) && table == old(table))
    {
      if tokenId in tokens {
        return Failure(DuplicateTokenId);
      }
      var rt := new RefreshToken(user, tokenId, tokenHash, expiresAt, now);
      tokens := tokens[tokenId := rt];
      table := table[tokenId := rt.Row()];
      return Success(rt);
    }

    /** `findByTokenId`: the entity found holds the row stored under that id. */
    function FindByTokenId(tokenId: string): (r: Option<RefreshToken>)
      reads this, tokens.Values
      ensures Valid() ==> (r.Some? <==> tokenId in table)
      ensures Valid() && r.Some? ==>
        r.value in tokens.Values && r.value.tokenId == tokenId && r.value.Row() == table[tokenId]
    {
      if tokenId in tokens then Some(tokens[tokenId]) else None
    }

    /** `revoke(token)` of a stored record. */
    method Revoke(token: RefreshToken)
      requires Valid() && token in tokens.Values
      modifies this, token
      ensures Valid() && tokens == old(tokens)
      ensures table == RevokeIn(old(table), token.tokenId)
    {
      token.SetRevoked(true);
      assert forall k :: k in tokens && k != token.tokenId ==> tokens[k] != token;
      table := table[token.tokenId := token.Row()];
    }

    /** `revokeAll(user)`: load the user's records and set each one's flag. */
    method RevokeAll(user: User)
      requires Valid()
      modifies this, tokens.Values
      ensures Valid() && tokens == old(tokens)
      ensures table == RevokeAllIn(old(table), user.id)
    {
      var pending := set k | k in tokens && tokens[k].user.id == user.id;
      ghost var t0 := table;
      ghost var done := RevokeAllIn(t0, user.id);
      while pending != {}
        invariant tokens == old(tokens) && table == t0 && pending <= tokens.Keys
        invariant forall k :: k in tokens ==> tokens[k].tokenId == k
        invariant forall k :: k in tokens ==> tokens[k].Row() == if k in pending then t0[k] else done[k]
        decreases pending
      {
        var k :| k in pending;
        var t := tokens[k];
        t.SetRevoked(true);
        pending := pending - {k};
      }
      assert forall k :: k in tokens ==> tokens[k].Row() == done[k];
      table := done;
    }
  }
}
