/** The OAuth 2.0 access-token policy of the sensor bridge: one stored
    credential row, a staleness test with a 60-second safety margin, and a
    refresh-token grant (section 6 of RFC 6749) that replaces the four
    mutable columns together when the authorization endpoint answers 200. */
module TokenManager {
  import opened Options

  /** Seconds before nominal expiry at which the access token already counts as stale. */
  const RefreshMargin: int := 60
  /** The only status of the token endpoint that counts as a successful refresh. */
  const StatusOk: int := 200
  /** The `grant_type` value of a refresh request (section 6 of RFC 6749). */
  const RefreshGrantType: string := "refresh_token"

  /** A form-encoded request body: field name to field value. */
  type Form = map<string, string>

  /** The single row of the `credentials` table. `updateDatetime` is `None`
      while the column is NULL. */
  datatype CredentialRow = CredentialRow(
    clientId: string,
    clientSecret: string,
    refreshToken: string,
    accessToken: string,
    expiresIn: int,
    updateDatetime: Option<int>)

  /** The fields of a 200 response of the token endpoint. */
  datatype IssuedTokens = IssuedTokens(refreshToken: string, accessToken: string, expiresIn: int)

  /** What the token endpoint answers: its HTTP status and, on 200, the new tokens. */
  datatype TokenReply = TokenReply(status: int, tokens: IssuedTokens)

  /** What an authorization server reads out of a refresh request. */
  datatype RefreshGrant = RefreshGrant(clientId: string, clientSecret: string, refreshToken: string)

  /** The time of the last refresh; a NULL column reads as 0 (a zero column,
      the other falsy value, reads as itself). */
  function UpdatedAt(row: CredentialRow): int
  {
    match row.updateDatetime
    case Some(t) => t
    case None => 0
  }

  /** The staleness test: more time has passed since the last refresh than
      the token's lifetime less the safety margin. */
  predicate NeedsRefresh(row: CredentialRow, now: int)
  {
    now - UpdatedAt(row) > row.expiresIn - RefreshMargin
  }

  /** The body of the refresh request: the stored client identity and
      refresh token, exactly as stored, and the refresh grant type. */
  function RefreshForm(row: CredentialRow): (form: Form)
    ensures form.Keys == {"client_id", "grant_type", "client_secret", "refresh_token"}
    ensures form["grant_type"] == RefreshGrantType
    ensures form["client_id"] == row.clientId && form["client_secret"] == row.clientSecret
    ensures form["refresh_token"] == row.refreshToken
  {
    map["client_id" := row.clientId,
        "grant_type" := RefreshGrantType,
        "client_secret" := row.clientSecret,
        "refresh_token" := row.refreshToken]
  }

  /** How an authorization server reads a refresh request: `grant_type` must
      be `refresh_token` and `refresh_token` must be present (section 6 of
      RFC 6749), and the client authenticates with `client_id` and
      `client_secret` in the body (section 2.3.1 of RFC 6749). */
  function ReadRefreshGrant(form: Form): Option<RefreshGrant>
  {
    if && "grant_type" in form && form["grant_type"] == RefreshGrantType
       && "refresh_token" in form && "client_id" in form && "client_secret" in form
    then Some(RefreshGrant(form["client_id"], form["client_secret"], form["refresh_token"]))
    else None
  }

  /** The row after a successful refresh at `now`. */
  function Refreshed(row: CredentialRow, tokens: IssuedTokens, now: int): (r: CredentialRow)
    ensures r.clientId == row.clientId && r.clientSecret == row.clientSecret
    ensures r.accessToken == tokens.accessToken && r.refreshToken == tokens.refreshToken
    ensures r.expiresIn == tokens.expiresIn && UpdatedAt(r) == now
  {
    row.(refreshToken := tokens.refreshToken,
         accessToken := tokens.accessToken,
         expiresIn := tokens.expiresIn,
         updateDatetime := Some(now))
  }

  /** The refresh request is a well-formed refresh-token grant that carries
      the stored credentials unchanged. */
  lemma RefreshFormIsRefreshGrant(row: CredentialRow)
    ensures ReadRefreshGrant(RefreshForm(row))
         == Some(RefreshGrant(row.clientId, row.clientSecret, row.refreshToken))
  {
  }

  /** An unset (NULL or zero) timestamp forces a refresh exactly when `now`
      exceeds the token's lifetime less the margin. */
  lemma UnsetTimestampForcesRefresh(row: CredentialRow, now: int)
    requires row.updateDatetime == None || row.updateDatetime == Some(0)
    ensures NeedsRefresh(row, now) <==> now > row.expiresIn - RefreshMargin
  {
  }

  /** Once stale, a row stays stale as the clock moves forward. */
  lemma StalenessPersists(row: CredentialRow, now: int, later: int)
    requires now <= later
    requires NeedsRefresh(row, now)
    ensures NeedsRefresh(row, later)
  {
  }

  /** After a refresh at `refreshedAt` the row is stale again exactly when
      more than the new lifetime less the margin has passed, whatever the
      row held before. */
  lemma RefreshedStaleIff(row: CredentialRow, tokens: IssuedTokens, refreshedAt: int, now: int)
    ensures NeedsRefresh(Refreshed(row, tokens, refreshedAt), now)
        <==> now - refreshedAt > tokens.expiresIn - RefreshMargin
  {
  }

  /** Right after a successful refresh no further refresh is needed at the
      same `now` if and only if the new lifetime is at least the margin. */
  lemma FreshRightAfterRefresh(row: CredentialRow, tokens: IssuedTokens, now: int)
    ensures !NeedsRefresh(Refreshed(row, tokens, now), now) <==> tokens.expiresIn >= RefreshMargin
  {
  }

  /** The credential store: the one row of the `credentials` table, updated in place. */
  class CredentialStore {
    var clientId: string
    var clientSecret: string
    var refreshToken: string
    var accessToken: string
    var expiresIn: int
    var updateDatetime: Option<int>

    /** The current row as a value. */
    function Row(): CredentialRow
      reads this
    {
      CredentialRow(clientId, clientSecret, refreshToken, accessToken, expiresIn, updateDatetime)
    }

    constructor (row: CredentialRow)
      ensures Row() == row
    {
      clientId, clientSecret := row.clientId, row.clientSecret;
      refreshToken, accessToken := row.refreshToken, row.accessToken;
      expiresIn, updateDatetime := row.expiresIn, row.updateDatetime;
    }

    /** Returns a token for the calendar API, refreshing first when the stored
        one is stale. `reply` is what the token endpoint answers to the
        refresh request; it is consulted only when `request` is sent.
        `token == None` stands for the `False` returned on a rejected refresh. */
    method GetAccessToken(now: int, reply: TokenReply) returns (token: Option<string>, request: Option<Form>)
      modifies this`refreshToken, this`accessToken, this`expiresIn, this`updateDatetime
      ensures request.Some? <==> NeedsRefresh(old(Row()), now)
      ensures request.Some? ==> request.value == RefreshForm(old(Row()))
      ensures !NeedsRefresh(old(Row()), now) ==> token == Some(old(accessToken)) && Row() == old(Row())
      ensures NeedsRefresh(old(Row()), now) && reply.status == StatusOk ==>
                token == Some(reply.tokens.accessToken) && Row() == Refreshed(old(Row()), reply.tokens, now)
      ensures NeedsRefresh(old(Row()), now) && reply.status != StatusOk ==>
                token == None && Row() == old(Row())
      ensures clientId == old(clientId) && clientSecret == old(clientSecret)
      ensures token.Some? ==> token.value == accessToken
    {
      var row := Row();
      if NeedsRefresh(row, now) {
        var data := RefreshForm(row);
        request := Some(data);
        if reply.status == StatusOk {
          refreshToken, accessToken, expiresIn, updateDatetime :=
            reply.tokens.refreshToken, reply.tokens.accessToken, reply.tokens.expiresIn, Some(now);
          token := Some(reply.tokens.accessToken);
        } else {
          token := None;
        }
      } else {
        request := None;
        token := Some(accessToken);
      }
    }
  }
}
