/** TokenService: access-token claims, and the opaque refresh token
    `tokenId "." secret` whose two halves are unpadded base64url
    (section 5 of RFC 4648) of 12 and 32 random bytes. JWT signing is not
    modelled: an access token is represented by its claims. */
module Tokens {
  import opened Wrappers
  import opened JavaLang
  import opened Passwords
  import opened Users
  import Base64

  /** `security.jwt.*`: issuer and lifetimes in seconds. */
  datatype JwtProps = JwtProps(issuer: string, accessTokenTtl: int, refreshTokenTtl: int)

  /** The defaults: issuer "rptv", 15 minutes, 30 days. */
  const DefaultJwtProps := JwtProps("rptv", 900, 2_592_000)

  /** Random bytes behind a token id and behind a token's secret part. */
  const IdBytes: nat := 12
  const SecretBytes: nat := 32

  /** The claims of a signed access token. */
  datatype Claims = Claims(
    issuer: string,
    issuedAt: Instant,
    expiresAt: Instant,
    subject: UserId,
    email: string,
    roles: seq<string>)

  /** What `generateRefreshToken` hands back. */
  datatype GeneratedRefreshToken = GeneratedRefreshToken(
    tokenId: string, token: string, hash: string, expiresAt: Instant)

  /** `extractTokenId` throws IllegalArgumentException("Malformed refresh token"). */
  datatype TokenError = MalformedRefreshToken

  /** `extractTokenId`: the text before the first '.', refused when there is
      no '.' or it is the first character. */
  function ExtractTokenId(presented: string): (r: Result<string, TokenError>)
    ensures r.Success? <==> '.' in presented && presented[0] != '.'
    ensures r.Success? ==>
      && r.value != "" && '.' !in r.value
      && |r.value| < |presented| && presented[..|r.value|] == r.value && presented[|r.value|] == '.'
  {
    var idx := IndexOf(presented, '.');
    if idx <= 0 then Failure(MalformedRefreshToken) else Success(presented[..idx])
  }

  /** The id comes back out of any `id "." secret` whose id is non-empty and
      free of '.'. */
  lemma ExtractJoined(id: string, secret: string)
    requires id != "" && '.' !in id
    ensures ExtractTokenId(id + "." + secret) == Success(id)
  {
    var s := id + "." + secret;
    var i := IndexOf(s, '.');
    assert s[|id|] == '.' && s[..|id|] == id;
  }

  /** `randomId`: 12 random bytes as unpadded base64url. */
  function RandomId(idBytes: seq<byte>): (id: string)
    requires |idBytes| == IdBytes
    ensures |id| == 16 && '.' !in id
    ensures Base64.Decode(Base64.UrlSafe, id) == Some(idBytes)
  {
    Base64.NoDotInUrlSafe(idBytes);
    Base64.DecodeEncode(Base64.UrlSafe, false, idBytes);
    Base64.Encode(Base64.UrlSafe, false, idBytes)
  }

  /** The TokenService bean: its properties and the shared encoder. The
      random source and the clock are the inputs of each call. */
  datatype TokenService = TokenService(props: JwtProps, encoder: PasswordEncoder)
  {
    /** `issueAccessToken`: issued now, expiring after the access TTL, for
        the user's id and email, with the roles string split on ','. */
    function IssueAccessToken(user: User, now: Instant): (c: Claims)
      ensures c.issuer == props.issuer
      ensures c.expiresAt - c.issuedAt == props.accessTokenTtl && c.issuedAt == now
      ensures c.subject == user.id && c.email == user.email
      ensures forall i :: 0 <= i < |c.roles| ==> ',' !in c.roles[i]
      ensures user.roles != "" && user.roles[|user.roles| - 1] != ',' ==> Join(c.roles, ',') == user.roles
    {
      SplitJoin(user.roles, ',');
      Claims(props.issuer, now, now + props.accessTokenTtl, user.id, user.email, Split(user.roles, ','))
    }

    /** `generateRefreshToken`: the presented token is id "." secret, the
        stored hash is the encoding of the whole presented token, and it
        expires after the refresh TTL. */
    function GenerateRefreshToken(idBytes: seq<byte>, secretBytes: seq<byte>, now: Instant)
      : (g: GeneratedRefreshToken)
      requires |idBytes| == IdBytes && |secretBytes| == SecretBytes
      ensures |g.tokenId| == 16 && |g.token| == 16 + 1 + 43
      ensures g.token[..16] == g.tokenId && g.token[16] == '.'
      ensures Base64.Decode(Base64.UrlSafe, g.tokenId) == Some(idBytes)
      ensures Base64.Decode(Base64.UrlSafe, g.token[17..]) == Some(secretBytes)
      ensures g.hash == encoder.encode(g.token)
      ensures g.expiresAt == now + props.refreshTokenTtl
      ensures ExtractTokenId(g.token) == Success(g.tokenId)
    {
      var tokenId := RandomId(idBytes);
      var rawPart := Base64.Encode(Base64.UrlSafe, false, secretBytes);
      var presented := tokenId + "." + rawPart;
      Base64.DecodeEncode(Base64.UrlSafe, false, secretBytes);
      assert presented[17..] == rawPart;
      ExtractJoined(tokenId, rawPart);
      GeneratedRefreshToken(tokenId, presented, encoder.encode(presented), now + props.refreshTokenTtl)
    }

    /** `matchesRefreshToken`: the encoder's check of the whole presented
        token. */
    function MatchesRefreshToken(rawToken: string, hash: string): (b: bool)
      ensures Sound(encoder) && hash == encoder.encode(rawToken) ==> b
    {
      encoder.matches(rawToken, hash)
    }
  }

  /** A freshly generated token matches its own stored hash. */
  lemma GeneratedTokenMatches(ts: TokenService, idBytes: seq<byte>, secretBytes: seq<byte>, now: Instant)
    requires Sound(ts.encoder)
    requires |idBytes| == IdBytes && |secretBytes| == SecretBytes
    ensures var g := ts.GenerateRefreshToken(idBytes, secretBytes, now);
            ts.MatchesRefreshToken(g.token, g.hash)
  {
    var g := ts.GenerateRefreshToken(idBytes, secretBytes, now);
    assert g.hash == ts.encoder.encode(g.token);
  }

  /** Two generated tokens from different id bytes have different ids: the
      id determines its bytes. */
  lemma DistinctIds(ts: TokenService, id1: seq<byte>, id2: seq<byte>, s1: seq<byte>, s2: seq<byte>, now: Instant)
    requires |id1| == IdBytes && |id2| == IdBytes && |s1| == SecretBytes && |s2| == SecretBytes
    requires id1 != id2
    ensures ts.GenerateRefreshToken(id1, s1, now).tokenId != ts.GenerateRefreshToken(id2, s2, now).tokenId
  {
    var g1 := ts.GenerateRefreshToken(id1, s1, now);
    var g2 := ts.GenerateRefreshToken(id2, s2, now);
    assert Base64.Decode(Base64.UrlSafe, g1.tokenId) == Some(id1);
    assert Base64.Decode(Base64.UrlSafe, g2.tokenId) == Some(id2);
  }

  /** A registered user's token carries exactly the role "USER". */
  lemma SingleRoleClaim(ts: TokenService, user: User, now: Instant)
    requires ',' !in user.roles
    ensures ts.IssueAccessToken(user, now).roles == [user.roles]
  {
    SplitJoin(user.roles, ',');
  }
}
