/** AuthController's four endpoints as steps of the store made of the invite,
    user and refresh-token tables. Each request reads the clock once (`now`)
    and its random source supplies the new user's id, the token id's 12 bytes
    and the secret's 32 bytes. `register` is one transaction; `login`,
    `refresh` and `logout` are sequences of the services' own transactions. */
module Auth {
  import opened Wrappers
  import opened JavaLang
  import opened Passwords
  import opened Users
  import opened Tokens
  import Invites
  import opened RefreshTokens

  /** The three tables the endpoints touch. */
  datatype Store = Store(invites: Invites.InviteTable, users: UserTable, tokens: TokenTable)

  /** Every table keyed as its unique index says, and every refresh token
      belongs to a registered user. */
  ghost predicate ValidStore(s: Store)
  {
    && Invites.ValidInvites(s.invites)
    && ValidUsers(s.users)
    && ValidTokens(s.tokens)
    && (forall k :: k in s.tokens ==> s.tokens[k].user.email in s.users && s.users[s.tokens[k].user.email] == s.tokens[k].user)
  }

  datatype RegisterRequest = RegisterRequest(email: string, password: string, inviteCode: string)
  datatype LoginRequest = LoginRequest(email: string, password: string)

  /** The access token (its claims) and the presented refresh token. */
  datatype TokenPair = TokenPair(accessToken: Claims, refreshToken: string)

  /** How an endpoint fails. */
  datatype AuthError =
    | InviteRejected(reason: Invites.InviteError) // from consumeInvite
    | Conflict                 // CONFLICT "Email already registered"
    | InvalidCredentials       // UNAUTHORIZED "Invalid credentials"
    | InvalidRefreshToken      // UNAUTHORIZED "Invalid refresh token"
    | RefreshTokenRevoked      // UNAUTHORIZED "Refresh token revoked"
    | MalformedToken           // IllegalArgumentException from extractTokenId
    | PersistenceFailure       // a unique index refused an insert

  /** What the random source supplies to one request. */
  predicate Entropy(idBytes: seq<byte>, secretBytes: seq<byte>)
  {
    |idBytes| == IdBytes && |secretBytes| == SecretBytes
  }

  /** The tail every successful endpoint shares: issue an access token, generate
      a refresh token and create its record. The presented token leads back
      to the one new record, which is the user's, unrevoked, and holds the
      hash of the presented token. */
  function IssuePair(ts: TokenService, tokens: TokenTable, user: User, now: Instant,
                     idBytes: seq<byte>, secretBytes: seq<byte>): (r: Result<(TokenPair, TokenTable), AuthError>)
    requires Entropy(idBytes, secretBytes)
    ensures r.Failure? <==> ts.GenerateRefreshToken(idBytes, secretBytes, now).tokenId in tokens
    ensures r.Failure? ==> r.error == PersistenceFailure
    ensures r.Success? ==>
      var (pair, t') := r.value;
      && ExtractTokenId(pair.refreshToken).Success?
      && var id := ExtractTokenId(pair.refreshToken).value;
         && id !in tokens && t'.Keys == tokens.Keys + {id}
         && t'[id] == TokenRow(user, id, ts.encoder.encode(pair.refreshToken), now,
                               now + ts.props.refreshTokenTtl, false)
         && pair.accessToken == ts.IssueAccessToken(user, now)
         && (forall k :: k in tokens ==> t'[k] == tokens[k])
    ensures r.Success? ==> AppendOnly(tokens, r.value.1)
    ensures r.Success? && ValidTokens(tokens) ==> ValidTokens(r.value.1)
  {
    var access := ts.IssueAccessToken(user, now);
    var gen := ts.GenerateRefreshToken(idBytes, secretBytes, now);
    match CreateIn(tokens, user, gen.tokenId, gen.hash, gen.expiresAt, now)
    case Failure(_) => Failure(PersistenceFailure)
    case Success(tokens') => Success((TokenPair(access, gen.token), tokens'))
  }

  /** Issuing a pair for a registered user keeps the store valid, also when
      the user table has just grown by that user. */
  lemma IssueKeepsStore(ts: TokenService, s: Store, users': UserTable, user: User, now: Instant,
                        idBytes: seq<byte>, secretBytes: seq<byte>)
    requires Entropy(idBytes, secretBytes) && (ValidUsers(s.users) ==> ValidUsers(users'))
    requires user.email in users' && users'[user.email] == user
    requires forall e :: e in s.users ==> e in users' && users'[e] == s.users[e]
    requires IssuePair(ts, s.tokens, user, now, idBytes, secretBytes).Success?
    ensures ValidStore(s) ==>
      ValidStore(s.(users := users', tokens := IssuePair(ts, s.tokens, user, now, idBytes, secretBytes).value.1))
  {
    if !ValidStore(s) { return; }
    var t' := IssuePair(ts, s.tokens, user, now, idBytes, secretBytes).value.1;
    forall k | k in t'
      ensures t'[k].user.email in users' && users'[t'[k].user.email] == t'[k].user
    {
      if k in s.tokens {
        assert RowStep(s.tokens[k], t'[k]);
      }
    }
  }

  /** What `register` does once the invite is spent: refuse an email found
      as given, store the user with role "USER", issue the pair; any failure
      leaves the store as it was. */
  function AdmitOp(ts: TokenService, pe: PasswordEncoder, s: Store, req: RegisterRequest, now: Instant,
                   userId: UserId, idBytes: seq<byte>, secretBytes: seq<byte>)
    : (r: (Result<TokenPair, AuthError>, Store))
    requires Entropy(idBytes, secretBytes)
    ensures r.0.Failure? ==> r.1 == s
    ensures req.email in s.users ==> r == (Failure(Conflict), s)
    ensures r.0.Success? <==>
      && req.email !in s.users && ToLowerCase(req.email) !in s.users && userId !in Ids(s.users)
      && ts.GenerateRefreshToken(idBytes, secretBytes, now).tokenId !in s.tokens
    ensures req.email !in s.users
            && (ToLowerCase(req.email) in s.users || userId in Ids(s.users)
                || ts.GenerateRefreshToken(idBytes, secretBytes, now).tokenId in s.tokens) ==>
      r == (Failure(PersistenceFailure), s)
    ensures r.1.invites == s.invites
    ensures r.0.Success? ==>
      var stored := ToLowerCase(req.email);
      && req.email !in s.users && stored !in s.users
      && r.1.users == s.users[stored := User(userId, stored, pe.encode(req.password), "USER")]
      && ExtractTokenId(r.0.value.refreshToken).Success?
      && var id := ExtractTokenId(r.0.value.refreshToken).value;
         && id !in s.tokens && r.1.tokens.Keys == s.tokens.Keys + {id}
         && r.1.tokens[id].user == r.1.users[stored] && !r.1.tokens[id].revoked
         && (forall k :: k in s.tokens ==> r.1.tokens[k] == s.tokens[k])
    ensures ValidStore(s) ==> ValidStore(r.1)
  {
    if FindByEmailIn(s.users, req.email).Some? then (Failure(Conflict), s)
    else
      match RegisterIn(pe, s.users, req.email, req.password, "USER", userId)
      case Failure(_) => (Failure(PersistenceFailure), s)
      case Success((user, users')) =>
        match IssuePair(ts, s.tokens, user, now, idBytes, secretBytes)
        case Failure(e) => (Failure(e), s)
        case Success((pair, tokens')) =>
          IssueKeepsStore(ts, s, users', user, now, idBytes, secretBytes);
          (Success(pair), s.(users := users', tokens := tokens'))
  }

  /** `register`: consume the invite, then admit the user as AdmitOp says.
      Any failure rolls the whole transaction back, the spent use included. */
  function RegisterOp(ts: TokenService, pe: PasswordEncoder, s: Store, req: RegisterRequest, now: Instant,
                      userId: UserId, idBytes: seq<byte>, secretBytes: seq<byte>)
    : (r: (Result<TokenPair, AuthError>, Store))
    requires Entropy(idBytes, secretBytes)
    ensures r.0.Failure? ==> r.1 == s
    ensures var c := Invites.ConsumeIn(s.invites, req.inviteCode, now);
            && (c.Failure? ==> r.0 == Failure(InviteRejected(c.error)))
            && (c.Success? && req.email in s.users ==> r.0 == Failure(Conflict))
            && (r.0.Success? <==>
                  && c.Success?
                  && req.email !in s.users && ToLowerCase(req.email) !in s.users && userId !in Ids(s.users)
                  && ts.GenerateRefreshToken(idBytes, secretBytes, now).tokenId !in s.tokens)
            && (c.Success? && req.email !in s.users
                && (ToLowerCase(req.email) in s.users || userId in Ids(s.users)
                    || ts.GenerateRefreshToken(idBytes, secretBytes, now).tokenId in s.tokens) ==>
                  r.0 == Failure(PersistenceFailure))
    ensures r.0.Success? ==>
      var stored := ToLowerCase(req.email);
      && Invites.ConsumeIn(s.invites, req.inviteCode, now).Success?
      && r.1.invites == Invites.ConsumeIn(s.invites, req.inviteCode, now).value
      && req.email !in s.users && stored !in s.users
      && r.1.users == s.users[stored := User(userId, stored, pe.encode(req.password), "USER")]
      && ExtractTokenId(r.0.value.refreshToken).Success?
      && var id := ExtractTokenId(r.0.value.refreshToken).value;
         && id !in s.tokens && r.1.tokens.Keys == s.tokens.Keys + {id}
         && r.1.tokens[id].user == r.1.users[stored] && !r.1.tokens[id].revoked
         && (forall k :: k in s.tokens ==> r.1.tokens[k] == s.tokens[k])
    ensures ValidStore(s) ==> ValidStore(r.1)
  {
    match Invites.ConsumeIn(s.invites, req.inviteCode, now)
    case Failure(e) => (Failure(InviteRejected(e)), s)
    case Success(invites') =>
      var (r, s') := AdmitOp(ts, pe, s.(invites := invites'), req, now, userId, idBytes, secretBytes);
      if r.Failure? then (r, s) else (r, s')
  }

  /** `login`: the same failure for an unknown email and for a wrong
      password, and nothing is created; otherwise one new record for the
      user. */
  function LoginOp(ts: TokenService, pe: PasswordEncoder, s: Store, req: LoginRequest, now: Instant,
                   idBytes: seq<byte>, secretBytes: seq<byte>)
    : (r: (Result<TokenPair, AuthError>, Store))
    requires Entropy(idBytes, secretBytes)
    ensures req.email !in s.users || !pe.matches(req.password, s.users[req.email].passwordHash) ==>
      r == (Failure(InvalidCredentials), s)
    ensures r.0.Success? <==>
      && req.email in s.users && pe.matches(req.password, s.users[req.email].passwordHash)
      && ts.GenerateRefreshToken(idBytes, secretBytes, now).tokenId !in s.tokens
    ensures req.email in s.users && pe.matches(req.password, s.users[req.email].passwordHash)
            && ts.GenerateRefreshToken(idBytes, secretBytes, now).tokenId in s.tokens ==>
      r == (Failure(PersistenceFailure), s)
    ensures r.0.Failure? ==> r.1 == s
    ensures r.0.Success? ==>
      && req.email in s.users && pe.matches(req.password, s.users[req.email].passwordHash)
      && r.1.invites == s.invites && r.1.users == s.users
      && ExtractTokenId(r.0.value.refreshToken).Success?
      && var id := ExtractTokenId(r.0.value.refreshToken).value;
         && id !in s.tokens && r.1.tokens.Keys == s.tokens.Keys + {id}
         && r.1.tokens[id].user == s.users[req.email] && !r.1.tokens[id].revoked
         && (forall k :: k in s.tokens ==> r.1.tokens[k] == s.tokens[k])
    ensures ValidStore(s) ==> ValidStore(r.1)
  {
    match FindByEmailIn(s.users, req.email)
    case None => (Failure(InvalidCredentials), s)
    case Some(user) =>
      if !pe.matches(req.password, user.passwordHash) then (Failure(InvalidCredentials), s)
      else
        match IssuePair(ts, s.tokens, user, now, idBytes, secretBytes)
        case Failure(e) => (Failure(e), s)
        case Success((pair, tokens')) => (Success(pair), s.(tokens := tokens'))
  }

  /** `refresh`: find the presented token's record, refuse it if revoked or
      if the presented token does not match its hash, then revoke it and
      issue a new pair for the same user. The expiry is never consulted, and
      the revoke stays when creating the new record fails. */
  function RefreshOp(ts: TokenService, s: Store, presented: string, now: Instant,
                     idBytes: seq<byte>, secretBytes: seq<byte>)
    : (r: (Result<TokenPair, AuthError>, Store))
    requires Entropy(idBytes, secretBytes)
    ensures ExtractTokenId(presented).Failure? ==> r == (Failure(MalformedToken), s)
    ensures ExtractTokenId(presented).Success? && ExtractTokenId(presented).value !in s.tokens ==>
      r == (Failure(InvalidRefreshToken), s)
    ensures ExtractTokenId(presented).Success? && ExtractTokenId(presented).value in s.tokens
            && s.tokens[ExtractTokenId(presented).value].revoked ==>
      r == (Failure(RefreshTokenRevoked), s)
    ensures ExtractTokenId(presented).Success? && ExtractTokenId(presented).value in s.tokens
            && !s.tokens[ExtractTokenId(presented).value].revoked
            && !ts.MatchesRefreshToken(presented, s.tokens[ExtractTokenId(presented).value].tokenHash) ==>
      r == (Failure(InvalidRefreshToken), s)
    ensures r.0.Failure? && r.0.error != PersistenceFailure ==> r.1 == s
    ensures s.tokens.Keys <= r.1.tokens.Keys
    ensures r.0.Success? || r.0 == Failure(PersistenceFailure) ==>
      && ExtractTokenId(presented).Success?
      && var id := ExtractTokenId(presented).value;
         && id in s.tokens && !s.tokens[id].revoked
         && ts.MatchesRefreshToken(presented, s.tokens[id].tokenHash)
         && r.1.tokens[id] == s.tokens[id].(revoked := true)
    ensures r.0 == Failure(PersistenceFailure) ==> r.1.tokens == RevokeIn(s.tokens, ExtractTokenId(presented).value)
    ensures r.0.Success? ==>
      var id := ExtractTokenId(presented).value;
      && ExtractTokenId(r.0.value.refreshToken).Success?
      && var id' := ExtractTokenId(r.0.value.refreshToken).value;
         && id' !in s.tokens && r.1.tokens.Keys == s.tokens.Keys + {id'}
         && r.1.tokens[id'].user == s.tokens[id].user && !r.1.tokens[id'].revoked
         && (forall k :: k in s.tokens && k != id ==> r.1.tokens[k] == s.tokens[k])
    ensures r.1.invites == s.invites && r.1.users == s.users
  {
    match ExtractTokenId(presented)
    case Failure(_) => (Failure(MalformedToken), s)
    case Success(tokenId) =>
      match FindByTokenIdIn(s.tokens, tokenId)
      case None => (Failure(InvalidRefreshToken), s)
      case Some(row) =>
        if row.revoked then (Failure(RefreshTokenRevoked), s)
        else if !ts.MatchesRefreshToken(presented, row.tokenHash) then (Failure(InvalidRefreshToken), s)
        else
          var revoked := RevokeIn(s.tokens, tokenId);
          match IssuePair(ts, revoked, row.user, now, idBytes, secretBytes)
          case Failure(e) => (Failure(e), s.(tokens := revoked))
          case Success((pair, tokens')) => (Success(pair), s.(tokens := tokens'))
  }

  /** Setting a revoked flag keeps the store valid. */
  lemma RevokeKeepsStore(s: Store, tokenId: string)
    ensures ValidStore(s) ==> ValidStore(s.(tokens := RevokeIn(s.tokens, tokenId)))
  {
    var t' := RevokeIn(s.tokens, tokenId);
    forall k | k in t'
      ensures t'[k].user == s.tokens[k].user
    {
    }
  }

  /** Refresh only ever sets revoked flags and adds a record, and keeps the
      store valid: the new record's user is the old record's, who is
      registered. */
  lemma RefreshKeepsRecords(ts: TokenService, s: Store, presented: string, now: Instant,
                            idBytes: seq<byte>, secretBytes: seq<byte>)
    requires Entropy(idBytes, secretBytes)
    ensures AppendOnly(s.tokens, RefreshOp(ts, s, presented, now, idBytes, secretBytes).1.tokens)
    ensures ValidStore(s) ==> ValidStore(RefreshOp(ts, s, presented, now, idBytes, secretBytes).1)
  {
    var r := RefreshOp(ts, s, presented, now, idBytes, secretBytes);
    if r.0.Success? || r.0 == Failure(PersistenceFailure) {
      var id := ExtractTokenId(presented).value;
      var revoked := RevokeIn(s.tokens, id);
      var user := s.tokens[id].user;
      var issued := IssuePair(ts, revoked, user, now, idBytes, secretBytes);
      RevokeKeepsStore(s, id);
      if issued.Success? {
        assert r.1 == s.(tokens := issued.value.1);
        AppendOnlyTransitive(s.tokens, revoked, r.1.tokens);
        if ValidStore(s) {
          IssueKeepsStore(ts, s.(tokens := revoked), s.users, user, now, idBytes, secretBytes);
        }
      } else {
        assert r.1 == s.(tokens := revoked);
      }
    }
  }

  /** On a stored, unrevoked record that the presented token matches,
      refresh is: revoke that record, then issue a pair for its user; the
      revocation stays even when the issue fails. */
  lemma RefreshRotates(ts: TokenService, s: Store, presented: string, now: Instant,
                       idBytes: seq<byte>, secretBytes: seq<byte>)
    requires Entropy(idBytes, secretBytes) && ExtractTokenId(presented).Success?
    requires var id := ExtractTokenId(presented).value;
             id in s.tokens && !s.tokens[id].revoked && ts.MatchesRefreshToken(presented, s.tokens[id].tokenHash)
    ensures var id := ExtractTokenId(presented).value;
            var revoked := RevokeIn(s.tokens, id);
            var p := IssuePair(ts, revoked, s.tokens[id].user, now, idBytes, secretBytes);
            RefreshOp(ts, s, presented, now, idBytes, secretBytes) ==
              if p.Success? then (Success(p.value.0), s.(tokens := p.value.1)) else (Failure(p.error), s.(tokens := revoked))
    ensures ValidStore(s) ==> ValidStore(RefreshOp(ts, s, presented, now, idBytes, secretBytes).1)
  {
    RefreshKeepsRecords(ts, s, presented, now, idBytes, secretBytes);
  }

  /** `logout`: revoke the presented token's record if the presented token
      matches its hash; silent otherwise. */
  function LogoutOp(ts: TokenService, s: Store, presented: string): (r: (Result<(), AuthError>, Store))
    ensures ExtractTokenId(presented).Failure? ==> r == (Failure(MalformedToken), s)
    ensures ExtractTokenId(presented).Success? ==> r.0 == Success(())
    ensures r.1.invites == s.invites && r.1.users == s.users && r.1.tokens.Keys == s.tokens.Keys
    ensures ExtractTokenId(presented).Success? ==>
      var id := ExtractTokenId(presented).value;
      && (forall k :: k in s.tokens && k != id ==> r.1.tokens[k] == s.tokens[k])
      && (id in s.tokens ==>
            r.1.tokens[id].revoked == (s.tokens[id].revoked || ts.MatchesRefreshToken(presented, s.tokens[id].tokenHash))
            && r.1.tokens[id] == s.tokens[id].(revoked := r.1.tokens[id].revoked))
    ensures AppendOnly(s.tokens, r.1.tokens)
    ensures ValidStore(s) ==> ValidStore(r.1)
  {
    match ExtractTokenId(presented)
    case Failure(_) => (Failure(MalformedToken), s)
    case Success(tokenId) =>
      match FindByTokenIdIn(s.tokens, tokenId)
      case None => (Success(()), s)
      case Some(row) =>
        if ts.MatchesRefreshToken(presented, row.tokenHash) then (Success(()), s.(tokens := RevokeIn(s.tokens, tokenId)))
        else (Success(()), s)
  }

  /** Rotation: once a refresh succeeds, presenting the old token again is
      refused as revoked and changes nothing, while the new token refreshes
      (unless the random source repeats a token id). */
  lemma RefreshRotation(ts: TokenService, s: Store, presented: string, now: Instant,
                        idBytes: seq<byte>, secretBytes: seq<byte>,
                        now2: Instant, idBytes2: seq<byte>, secretBytes2: seq<byte>)
    requires Sound(ts.encoder)
    requires Entropy(idBytes, secretBytes) && Entropy(idBytes2, secretBytes2)
    requires RefreshOp(ts, s, presented, now, idBytes, secretBytes).0.Success?
    ensures var (r, s') := RefreshOp(ts, s, presented, now, idBytes, secretBytes);
            && RefreshOp(ts, s', presented, now2, idBytes2, secretBytes2) == (Failure(RefreshTokenRevoked), s')
            && (ts.GenerateRefreshToken(idBytes2, secretBytes2, now2).tokenId !in s'.tokens ==>
                  RefreshOp(ts, s', r.value.refreshToken, now2, idBytes2, secretBytes2).0.Success?)
  {
    var (r, s') := RefreshOp(ts, s, presented, now, idBytes, secretBytes);
    var id := ExtractTokenId(presented).value;
    var revoked := RevokeIn(s.tokens, id);
    var issued := IssuePair(ts, revoked, s.tokens[id].user, now, idBytes, secretBytes);
    assert issued.Success? && issued.value == (r.value, s'.tokens);
    var id' := ExtractTokenId(r.value.refreshToken).value;
    assert s'.tokens[id'].tokenHash == ts.encoder.encode(r.value.refreshToken);
  }

  /** After a logout, the same token never refreshes, whatever the store:
      a matching record is now revoked, and a record it does not match, or
      no record, refuses it as before. */
  lemma LogoutThenRefreshFails(ts: TokenService, s: Store, presented: string, now: Instant,
                               idBytes: seq<byte>, secretBytes: seq<byte>)
    requires Entropy(idBytes, secretBytes)
    ensures var s' := LogoutOp(ts, s, presented).1;
            RefreshOp(ts, s', presented, now, idBytes, secretBytes) ==
              (Failure(if ExtractTokenId(presented).Failure? then MalformedToken
                       else if ExtractTokenId(presented).value !in s.tokens then InvalidRefreshToken
                       else if ts.MatchesRefreshToken(presented, s.tokens[ExtractTokenId(presented).value].tokenHash)
                       then RefreshTokenRevoked
                       else if s.tokens[ExtractTokenId(presented).value].revoked then RefreshTokenRevoked
                       else InvalidRefreshToken), s')
  {
  }

  /** Logging out twice is logging out once. */
  lemma LogoutIdempotent(ts: TokenService, s: Store, presented: string)
    ensures var (r, s') := LogoutOp(ts, s, presented);
            LogoutOp(ts, s', presented) == (r, s')
  {
    var (r, s') := LogoutOp(ts, s, presented);
    if ExtractTokenId(presented).Success? {
      var id := ExtractTokenId(presented).value;
      RevokeIdempotent(s.tokens, id);
    }
  }

  /** The single-use invite flow: with an unexpired invite allowing one use
      and none spent, a registration from a fresh email succeeds and spends
      that use; a second registration presenting the same code is refused
      as used up, whoever sends it. */
  lemma SingleUseInviteRegistersOnce(ts: TokenService, pe: PasswordEncoder, s: Store, req: RegisterRequest,
                                     now: Instant, userId: UserId, idBytes: seq<byte>, secretBytes: seq<byte>,
                                     req2: RegisterRequest, now2: Instant, userId2: UserId,
                                     idBytes2: seq<byte>, secretBytes2: seq<byte>)
    requires Entropy(idBytes, secretBytes) && Entropy(idBytes2, secretBytes2)
    requires req.inviteCode in s.invites
    requires s.invites[req.inviteCode].maxUses == 1 && s.invites[req.inviteCode].uses == 0
    requires !Invites.Expired(s.invites[req.inviteCode], now) && !Invites.Expired(s.invites[req.inviteCode], now2)
    requires req.email !in s.users && ToLowerCase(req.email) !in s.users && userId !in Ids(s.users)
    requires ts.GenerateRefreshToken(idBytes, secretBytes, now).tokenId !in s.tokens
    requires req2.inviteCode == req.inviteCode
    ensures var (r, s') := RegisterOp(ts, pe, s, req, now, userId, idBytes, secretBytes);
            && r.Success?
            && req.inviteCode in s'.invites && s'.invites[req.inviteCode].uses == 1
            && RegisterOp(ts, pe, s', req2, now2, userId2, idBytes2, secretBytes2).0
                 == Failure(InviteRejected(Invites.InviteUsedUp))
  {
    var (r, s') := RegisterOp(ts, pe, s, req, now, userId, idBytes, secretBytes);
    var row := s.invites[req.inviteCode];
    assert Invites.Consume(row, now).value == row.(uses := 1);
    assert s'.invites[req.inviteCode] == row.(uses := 1);
  }

  /** Registering with an email that has an upper-case letter stores it
      lower-cased, so logging in with the very string used to register is
      refused: the login lookup does not lower-case. */
  lemma MixedCaseRegistrationCannotLogIn(ts: TokenService, pe: PasswordEncoder, s: Store, req: RegisterRequest,
                                         now: Instant, userId: UserId, idBytes: seq<byte>, secretBytes: seq<byte>,
                                         now2: Instant, idBytes2: seq<byte>, secretBytes2: seq<byte>)
    requires Entropy(idBytes, secretBytes) && Entropy(idBytes2, secretBytes2)
    requires !IsLowerCase(req.email)
    requires RegisterOp(ts, pe, s, req, now, userId, idBytes, secretBytes).0.Success?
    ensures var s' := RegisterOp(ts, pe, s, req, now, userId, idBytes, secretBytes).1;
            LoginOp(ts, pe, s', LoginRequest(req.email, req.password), now2, idBytes2, secretBytes2)
              == (Failure(InvalidCredentials), s')
  {
    assert req.email != ToLowerCase(req.email);
  }

  /** With a sound encoder, a user who registered with a lower-case email
      logs in with the same email and password; only a repeated token id
      can still fail the login. */
  lemma RegisteredUserCanLogIn(ts: TokenService, pe: PasswordEncoder, s: Store, req: RegisterRequest,
                               now: Instant, userId: UserId, idBytes: seq<byte>, secretBytes: seq<byte>,
                               now2: Instant, idBytes2: seq<byte>, secretBytes2: seq<byte>)
    requires Sound(pe)
    requires Entropy(idBytes, secretBytes) && Entropy(idBytes2, secretBytes2)
    requires IsLowerCase(req.email)
    requires RegisterOp(ts, pe, s, req, now, userId, idBytes, secretBytes).0.Success?
    ensures var s' := RegisterOp(ts, pe, s, req, now, userId, idBytes, secretBytes).1;
            (LoginOp(ts, pe, s', LoginRequest(req.email, req.password), now2, idBytes2, secretBytes2).0.Success?
             <==> ts.GenerateRefreshToken(idBytes2, secretBytes2, now2).tokenId !in s'.tokens)
  {
    var s' := RegisterOp(ts, pe, s, req, now, userId, idBytes, secretBytes).1;
    assert s'.users[req.email].passwordHash == pe.encode(req.password);
  }

  /** Refresh never looks at the record's expiry: an expired, unrevoked,
      matching token still rotates. */
  lemma RefreshIgnoresExpiry(ts: TokenService, s: Store, presented: string, now: Instant,
                             idBytes: seq<byte>, secretBytes: seq<byte>)
    requires Entropy(idBytes, secretBytes)
    requires ExtractTokenId(presented).Success?
    requires var id := ExtractTokenId(presented).value;
             && id in s.tokens && !s.tokens[id].revoked && s.tokens[id].expiresAt < now
             && ts.MatchesRefreshToken(presented, s.tokens[id].tokenHash)
    requires ts.GenerateRefreshToken(idBytes, secretBytes, now).tokenId !in s.tokens
    ensures RefreshOp(ts, s, presented, now, idBytes, secretBytes).0.Success?
  {
  }

  /** A successful login is issuing a pair for the user stored under the
      email. */
  lemma LoginIssues(ts: TokenService, pe: PasswordEncoder, s: Store, req: LoginRequest, now: Instant,
                    idBytes: seq<byte>, secretBytes: seq<byte>)
    requires Entropy(idBytes, secretBytes) && LoginOp(ts, pe, s, req, now, idBytes, secretBytes).0.Success?
    ensures req.email in s.users
    ensures var p := IssuePair(ts, s.tokens, s.users[req.email], now, idBytes, secretBytes);
            && p.Success?
            && LoginOp(ts, pe, s, req, now, idBytes, secretBytes) == (Success(p.value.0), s.(tokens := p.value.1))
  {
  }

  /** A successful registration hands back exactly the pair `IssuePair`
      issues for the new user, stored under the lower-cased email with role
      "USER": the access token carries that user's claims, and the stored
      record holds the returned token's hash and its expiry. */
  lemma RegisterIssues(ts: TokenService, pe: PasswordEncoder, s: Store, req: RegisterRequest, now: Instant,
                       userId: UserId, idBytes: seq<byte>, secretBytes: seq<byte>)
    requires Entropy(idBytes, secretBytes)
    requires RegisterOp(ts, pe, s, req, now, userId, idBytes, secretBytes).0.Success?
    ensures var user := User(userId, ToLowerCase(req.email), pe.encode(req.password), "USER");
            var p := IssuePair(ts, s.tokens, user, now, idBytes, secretBytes);
            var r := RegisterOp(ts, pe, s, req, now, userId, idBytes, secretBytes);
            && p.Success?
            && r.0 == Success(p.value.0)
            && r.1.tokens == p.value.1
  {
  }

  /** The login, refresh, logout flow: a refresh after a login hands out a
      different token, and once that one is logged out refreshing with it
      is refused. */
  lemma LoginRefreshLogout(ts: TokenService, pe: PasswordEncoder, s: Store, req: LoginRequest,
                           now: Instant, idBytes: seq<byte>, secretBytes: seq<byte>,
                           now2: Instant, idBytes2: seq<byte>, secretBytes2: seq<byte>,
                           now3: Instant, idBytes3: seq<byte>, secretBytes3: seq<byte>)
    requires Sound(ts.encoder)
    requires Entropy(idBytes, secretBytes) && Entropy(idBytes2, secretBytes2) && Entropy(idBytes3, secretBytes3)
    requires LoginOp(ts, pe, s, req, now, idBytes, secretBytes).0.Success?
    requires var s1 := LoginOp(ts, pe, s, req, now, idBytes, secretBytes).1;
             ts.GenerateRefreshToken(idBytes2, secretBytes2, now2).tokenId !in s1.tokens
    ensures var (r1, s1) := LoginOp(ts, pe, s, req, now, idBytes, secretBytes);
            var (r2, s2) := RefreshOp(ts, s1, r1.value.refreshToken, now2, idBytes2, secretBytes2);
            && r2.Success?
            && r2.value.refreshToken != r1.value.refreshToken
            && var s3 := LogoutOp(ts, s2, r2.value.refreshToken).1;
               RefreshOp(ts, s3, r2.value.refreshToken, now3, idBytes3, secretBytes3) == (Failure(RefreshTokenRevoked), s3)
  {
    LoginIssues(ts, pe, s, req, now, idBytes, secretBytes);
    var (r1, s1) := LoginOp(ts, pe, s, req, now, idBytes, secretBytes);
    var id1 := ExtractTokenId(r1.value.refreshToken).value;
    assert s1.tokens[id1].tokenHash == ts.encoder.encode(r1.value.refreshToken);
    RefreshRotates(ts, s1, r1.value.refreshToken, now2, idBytes2, secretBytes2);
    var revoked := RevokeIn(s1.tokens, id1);
    var p := IssuePair(ts, revoked, s1.tokens[id1].user, now2, idBytes2, secretBytes2);
    assert p.Success?;
    var (r2, s2) := RefreshOp(ts, s1, r1.value.refreshToken, now2, idBytes2, secretBytes2);
    var id2 := ExtractTokenId(r2.value.refreshToken).value;
    assert s2.tokens[id2].tokenHash == ts.encoder.encode(r2.value.refreshToken);
    LogoutThenRefreshFails(ts, s2, r2.value.refreshToken, now3, idBytes3, secretBytes3);
  }

  /** The controller over its four collaborators. */
  class AuthController {
    const userService: UserService
    const inviteService: Invites.InviteService
    const tokenService: TokenService
    const refreshTokenService: RefreshTokenService

    constructor (userService: UserService, inviteService: Invites.InviteService,
                 tokenService: TokenService, refreshTokenService: RefreshTokenService)
      ensures this.userService == userService && this.inviteService == inviteService
      ensures this.tokenService == tokenService && this.refreshTokenService == refreshTokenService
    {
      this.userService := userService;
      this.inviteService := inviteService;
      this.tokenService := tokenService;
      this.refreshTokenService := refreshTokenService;
    }

    /** The three tables as the endpoints see them. */
    ghost function Snapshot(): Store
      reads this, userService, inviteService, refreshTokenService
    {
      Store(inviteService.table, userService.users, refreshTokenService.table)
    }

    /** Each service keeps its own table in step with its entities. */
    ghost predicate ServicesValid()
      reads this, userService, inviteService, inviteService.invites.Values,
            refreshTokenService, refreshTokenService.tokens.Values
    {
      userService.Valid() && inviteService.Valid() && refreshTokenService.Valid()
    }

    ghost predicate Valid()
      reads this, userService, inviteService, inviteService.invites.Values,
            refreshTokenService, refreshTokenService.tokens.Values
    {
      ServicesValid() && ValidStore(Snapshot())
    }

    /** Issue an access token, generate a refresh token and create its record. */
    method IssueTokens(user: User, now: Instant, idBytes: seq<byte>, secretBytes: seq<byte>)
      returns (r: Result<TokenPair, AuthError>)
      requires ServicesValid() && Entropy(idBytes, secretBytes)
      modifies refreshTokenService
      ensures ServicesValid()
      ensures var p := IssuePair(tokenService, old(Snapshot()).tokens, user, now, idBytes, secretBytes);
              && (p.Success? ==> r == Success(p.value.0) && Snapshot() == old(Snapshot()).(tokens := p.value.1))
              && (p.Failure? ==> r == Failure(p.error) && Snapshot() == old(Snapshot()))
    {
      var access := tokenService.IssueAccessToken(user, now);
      var gen := tokenService.GenerateRefreshToken(idBytes, secretBytes, now);
      var created := refreshTokenService.Create(user, gen.tokenId, gen.hash, gen.expiresAt, now);
      if created.Failure? {
        return Failure(PersistenceFailure);
      }
      return Success(TokenPair(access, gen.token));
    }

    /** Set the revoked flag of a stored record. */
    method RevokeRecord(token: RefreshToken)
      requires ServicesValid() && token in refreshTokenService.tokens.Values
      modifies refreshTokenService, token
      ensures ServicesValid()
      ensures Snapshot() == old(Snapshot()).(tokens := RevokeIn(old(Snapshot()).tokens, token.tokenId))
    {
      refreshTokenService.Revoke(token);
    }

    /** Spend one use of an invite. */
    method SpendInvite(code: string, now: Instant) returns (c: Result<Invites.InviteCode, Invites.InviteError>)
      requires ServicesValid()
      modifies inviteService, inviteService.invites.Values
      ensures ServicesValid() && inviteService.invites == old(inviteService.invites)
      ensures var x := Invites.ConsumeIn(old(Snapshot()).invites, code, now);
              && (x.Success? ==> c.Success? && Snapshot() == old(Snapshot()).(invites := x.value))
              && (x.Failure? ==> c == Failure(x.error) && Snapshot() == old(Snapshot()))
    {
      c := inviteService.ConsumeInvite(code, now);
    }

    /** Take back the use a rolled-back transaction spent on an invite. */
    method GiveBackInvite(code: string)
      requires ServicesValid()
      requires code in Snapshot().invites && Snapshot().invites[code].uses > -0x8000_0000
      modifies inviteService, inviteService.invites.Values
      ensures ServicesValid() && inviteService.invites == old(inviteService.invites)
      ensures var t := old(Snapshot()).invites;
              Snapshot() == old(Snapshot()).(invites := t[code := t[code].(uses := t[code].uses - 1)])
    {
      inviteService.RollBackConsume(code);
    }

    /** Insert a user with the default role. */
    method InsertUser(email: string, password: string, userId: UserId) returns (u: Result<User, UserError>)
      requires ServicesValid()
      modifies userService
      ensures ServicesValid()
      ensures var x := RegisterIn(userService.encoder, old(Snapshot()).users, email, password, "USER", userId);
              && (x.Success? ==> u == Success(x.value.0) && Snapshot() == old(Snapshot()).(users := x.value.1))
              && (x.Failure? ==> u == Failure(x.error) && Snapshot() == old(Snapshot()))
    {
      u := userService.Register(email, password, "USER", userId);
    }

    /** Remove the user a rolled-back transaction inserted. */
    method RemoveUser(email: string)
      requires ServicesValid()
      modifies userService
      ensures ServicesValid()
      ensures Snapshot() == old(Snapshot()).(users := old(Snapshot()).users - {email})
    {
      userService.RollBackRegister(email);
    }

    /** The part of `register` after the invite is spent; a failure removes
        the user it inserted. */
    method Admit(req: RegisterRequest, now: Instant, userId: UserId, idBytes: seq<byte>, secretBytes: seq<byte>)
      returns (r: Result<TokenPair, AuthError>)
      requires ServicesValid() && Entropy(idBytes, secretBytes)
      modifies userService, refreshTokenService
      ensures ServicesValid()
      ensures (r, Snapshot()) ==
              AdmitOp(tokenService, userService.encoder, old(Snapshot()), req, now, userId, idBytes, secretBytes)
    {
      ghost var s0 := Snapshot();
      var existing := userService.FindByEmail(req.email);
      if existing.Some? {
        return Failure(Conflict);
      }
      var registered := InsertUser(req.email, req.password, userId);
      if registered.Failure? {
        return Failure(PersistenceFailure);
      }
      var user := registered.value;
      ghost var users' := RegisterIn(userService.encoder, s0.users, req.email, req.password, "USER", userId).value.1;
      ghost var p := IssuePair(tokenService, s0.tokens, user, now, idBytes, secretBytes);
      assert AdmitOp(tokenService, userService.encoder, s0, req, now, userId, idBytes, secretBytes) ==
        if p.Success? then (Success(p.value.0), s0.(users := users', tokens := p.value.1)) else (Failure(p.error), s0);
      r := IssueTokens(user, now, idBytes, secretBytes);
      if r.Failure? {
        RegisterRollBack(userService.encoder, s0.users, req.email, req.password, "USER", userId);
        RemoveUser(user.email);
      }
    }

    /** `register`, one transaction: a failure after the invite was consumed
        rolls back the invite and any user inserted. */
    method Register(req: RegisterRequest, now: Instant, userId: UserId, idBytes: seq<byte>, secretBytes: seq<byte>)
      returns (r: Result<TokenPair, AuthError>)
      requires Valid() && Entropy(idBytes, secretBytes)
      modifies userService, inviteService, inviteService.invites.Values, refreshTokenService
      ensures Valid()
      ensures (r, Snapshot()) ==
              RegisterOp(tokenService, userService.encoder, old(Snapshot()), req, now, userId, idBytes, secretBytes)
    {
      ghost var s0 := Snapshot();
      var consumed := SpendInvite(req.inviteCode, now);
      if consumed.Failure? {
        return Failure(InviteRejected(consumed.error));
      }
      ghost var s1 := s0.(invites := Invites.ConsumeIn(s0.invites, req.inviteCode, now).value);
      ghost var a := AdmitOp(tokenService, userService.encoder, s1, req, now, userId, idBytes, secretBytes);
      assert RegisterOp(tokenService, userService.encoder, s0, req, now, userId, idBytes, secretBytes) ==
        if a.0.Failure? then (a.0, s0) else a;
      Invites.ConsumeRollBack(s0.invites, req.inviteCode, now);
      r := Admit(req, now, userId, idBytes, secretBytes);
      if r.Failure? {
        assert Snapshot() == s1;
        GiveBackInvite(req.inviteCode);
        assert Snapshot().invites == s0.invites;
        assert Snapshot() == s0;
      }
    }

    /** `login`. */
    method Login(req: LoginRequest, now: Instant, idBytes: seq<byte>, secretBytes: seq<byte>)
      returns (r: Result<TokenPair, AuthError>)
      requires Valid() && Entropy(idBytes, secretBytes)
      modifies refreshTokenService
      ensures Valid()
      ensures (r, Snapshot()) ==
              LoginOp(tokenService, userService.encoder, old(Snapshot()), req, now, idBytes, secretBytes)
    {
      ghost var s0 := Snapshot();
      var found := userService.FindByEmail(req.email);
      if found.None? {
        return Failure(InvalidCredentials);
      }
      var user := found.value;
      if !userService.MatchesPassword(req.password, user.passwordHash) {
        return Failure(InvalidCredentials);
      }
      ghost var p := IssuePair(tokenService, s0.tokens, user, now, idBytes, secretBytes);
      ghost var expected := if p.Success? then (Success(p.value.0), s0.(tokens := p.value.1)) else (Failure(p.error), s0);
      assert LoginOp(tokenService, userService.encoder, s0, req, now, idBytes, secretBytes) == expected;
      r := IssueTokens(user, now, idBytes, secretBytes);
    }

    /** `refresh`: the revoke and the create are separate transactions. */
    method Refresh(presented: string, now: Instant, idBytes: seq<byte>, secretBytes: seq<byte>)
      returns (r: Result<TokenPair, AuthError>)
      requires Valid() && Entropy(idBytes, secretBytes)
      modifies refreshTokenService, refreshTokenService.tokens.Values
      ensures Valid()
      ensures (r, Snapshot()) == RefreshOp(tokenService, old(Snapshot()), presented, now, idBytes, secretBytes)
    {
      ghost var s0 := Snapshot();
      var tokenId := ExtractTokenId(presented);
      if tokenId.Failure? {
        return Failure(MalformedToken);
      }
      var found := refreshTokenService.FindByTokenId(tokenId.value);
      if found.None? {
        return Failure(InvalidRefreshToken);
      }
      var token := found.value;
      if token.revoked {
        return Failure(RefreshTokenRevoked);
      }
      if !tokenService.MatchesRefreshToken(presented, token.tokenHash) {
        return Failure(InvalidRefreshToken);
      }
      RefreshRotates(tokenService, s0, presented, now, idBytes, secretBytes);
      RevokeRecord(token);
      var user := token.user;
      r := IssueTokens(user, now, idBytes, secretBytes);
    }

    /** `logout`. */
    method Logout(presented: string) returns (r: Result<(), AuthError>)
      requires Valid()
      modifies refreshTokenService, refreshTokenService.tokens.Values
      ensures Valid()
      ensures (r, Snapshot()) == LogoutOp(tokenService, old(Snapshot()), presented)
    {
      ghost var s0 := Snapshot();
      var tokenId := ExtractTokenId(presented);
      if tokenId.Failure? {
        return Failure(MalformedToken);
      }
      var found := refreshTokenService.FindByTokenId(tokenId.value);
      if found.Some? && tokenService.MatchesRefreshToken(presented, found.value.tokenHash) {
        assert LogoutOp(tokenService, s0, presented) == (Success(()), s0.(tokens := RevokeIn(s0.tokens, tokenId.value)));
        RevokeRecord(found.value);
      } else {
        assert LogoutOp(tokenService, s0, presented) == (Success(()), s0);
      }
      return Success(());
    }
  }
}
