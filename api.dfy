/** The osu! API v2 client: how a request is built, how the reply's status and
    body are classified into a value or an `OsuApiError`, the two endpoints the
    program uses, ranking pagination, and the client that holds the OAuth token.

    The network and the JSON library are oracles held in an `Env`: the same
    request always gets the same reply, and the same bytes always decode the
    same way. */
module Api {
  import opened Wrappers
  import opened Errors
  import opened Text
  import opened Mods

  // ---------------------------------------------------------------------------
  // The records the API sends back
  // ---------------------------------------------------------------------------

  /** An `f32` the program only copies: its bits, never interpreted. */
  datatype F32 = F32(bits: bv32)

  datatype BeatmapCompact = BeatmapCompact(version: string)

  datatype BeatmapSetCompact = BeatmapSetCompact(
    artist: string,
    artistUnicode: string,
    creator: string,
    source: string,
    title: string,
    titleUnicode: string)

  /** A score; `createdAt` is the UTC timestamp as an integer. */
  datatype Score = Score(
    id: int,
    bestId: int,
    userId: int,
    accuracy: F32,
    mods: OsuMods,
    score: int,
    pp: F32,
    createdAt: int,
    replay: bool,
    beatmapset: BeatmapSetCompact,
    beatmap: BeatmapCompact)

  datatype UserCompact = UserCompact(id: int, username: string)

  datatype UserStatistics = UserStatistics(pp: F32, globalRank: int, user: UserCompact)

  datatype RankingResponse = RankingResponse(ranking: seq<UserStatistics>, total: int)

  datatype OauthResponse = OauthResponse(tokenType: string, expiresIn: int, accessToken: string)

  datatype RankingType = Country(code: string) | Global

  // ---------------------------------------------------------------------------
  // Requests, replies and the oracles
  // ---------------------------------------------------------------------------

  datatype HttpMethod = Get | Post

  /** The request body: empty, or the client-credentials grant of the OAuth exchange. */
  datatype Body = Empty | Credentials(clientId: int, clientSecret: string)

  datatype Request = Request(verb: HttpMethod, uri: string, headers: seq<(string, string)>, body: Body)

  /** A reply: its status code and its body, whose reading may fail. */
  datatype Response = Response(status: int, body: Result<Bytes, TransportError>)

  /** `serde_json::from_slice` at one target type. */
  type Decoder<T> = Bytes -> Result<T, JsonError>

  /** The world outside the client: the request builder's verdict, the
      transport, and the JSON decoder at each type the client reads. */
  datatype Env = Env(
    reject: Request -> Option<HttpError>,
    send: Request -> Result<Response, TransportError>,
    decodeError: Decoder<ApiErrorResponse>,
    decodeRanking: Decoder<RankingResponse>,
    decodeScores: Decoder<seq<Score>>,
    decodeOauth: Decoder<OauthResponse>)

  const OK: int := 200
  const BAD_REQUEST: int := 400
  const TOO_MANY_REQUESTS: int := 429
  const SERVICE_UNAVAILABLE: int := 503

  /** `handle_error`: the body is read first; 200 hands the bytes on, 400, 429
      and 503 have errors of their own, and any other status is an API error if
      the body is an `{"error": ...}` document and a parsing error otherwise.
      Only a 200 with a readable body passes, and it passes its bytes unchanged. */
  function HandleError(res: Response, decodeError: Decoder<ApiErrorResponse>): (r: Result<Bytes, OsuApiError>)
    ensures r.Ok? <==> res.status == OK && res.body.Ok?
    ensures r.Ok? ==> r.value == res.body.value
  {
    match res.body
    case Err(e) => Err(HyperError(e))
    case Ok(bytes) =>
      if res.status == OK then Ok(bytes)
      else if res.status == BAD_REQUEST then Err(BadRequest)
      else if res.status == TOO_MANY_REQUESTS then Err(RateLimited)
      else if res.status == SERVICE_UNAVAILABLE then Err(ServiceUnavailable)
      else match decodeError(bytes)
        case Ok(err) => Err(ApiError(err))
        case Err(e) => Err(ParsingError(e, bytes))
  }

  /** `parse_bytes`: decode, or report the decoder's error with the bytes; it
      never reports an API error. */
  function ParseBytes<T>(bytes: Bytes, decode: Decoder<T>): (r: Result<T, OsuApiError>)
    ensures r.Ok? <==> decode(bytes).Ok?
    ensures r.Ok? ==> r.value == decode(bytes).value
    ensures r.Err? ==> r.error == ParsingError(decode(bytes).error, bytes)
  {
    match decode(bytes)
    case Ok(v) => Ok(v)
    case Err(e) => Err(ParsingError(e, bytes))
  }

  /** Build the request, send it, classify the reply and decode its body; the
      first step that fails decides the error. */
  function Exchange<T>(env: Env, req: Request, decode: Decoder<T>): (r: Result<T, OsuApiError>)
    ensures r.Ok? <==> env.reject(req).None? && env.send(req).Ok?
                       && HandleError(env.send(req).value, env.decodeError).Ok?
                       && decode(HandleError(env.send(req).value, env.decodeError).value).Ok?
    ensures env.reject(req).Some? ==> r == Err(HyperHttpError(env.reject(req).value))
  {
    match env.reject(req)
    case Some(e) => Err(HyperHttpError(e))
    case None =>
      match env.send(req)
      case Err(e) => Err(HyperError(e))
      case Ok(resp) =>
        match HandleError(resp, env.decodeError)
        case Err(e) => Err(e)
        case Ok(bytes) => ParseBytes(bytes, decode)
  }

  const USER_AGENT: string := "vasteri-bebrik"

  /** The request `make_request` builds: the bearer token, JSON in and out,
      the program's user agent and an empty body. */
  function AuthorizedRequest(verb: HttpMethod, link: string, token: string): (req: Request)
    ensures req.uri == link && req.verb == verb && req.body == Empty
    ensures ("Authorization", "Bearer " + token) in req.headers
  {
    Request(verb, link,
            [("Authorization", "Bearer " + token),
             ("Accept", "application/json"),
             ("Content-Type", "application/json"),
             ("User-Agent", USER_AGENT)],
            Empty)
  }

  const OAUTH_LINK: string := "https://osu.ppy.sh/oauth/token"

  /** The request `request_oauth` builds: a POST of the client credentials. */
  function OauthRequest(clientId: int, clientSecret: string): (req: Request)
    ensures req.verb == Post && req.uri == OAUTH_LINK && req.body == Credentials(clientId, clientSecret)
    ensures forall h :: h in req.headers ==> h.0 != "Authorization"
  {
    Request(Post, OAUTH_LINK,
            [("Accept", "application/json"), ("Content-Type", "application/json")],
            Credentials(clientId, clientSecret))
  }

  /** `request_oauth`: the access token of a successful client-credentials grant. */
  function RequestOauth(env: Env, clientId: int, clientSecret: string): (r: Result<string, OsuApiError>)
    ensures r.Ok? <==> Exchange(env, OauthRequest(clientId, clientSecret), env.decodeOauth).Ok?
    ensures r.Ok? ==> r.value == Exchange(env, OauthRequest(clientId, clientSecret), env.decodeOauth).value.accessToken
  {
    match Exchange(env, OauthRequest(clientId, clientSecret), env.decodeOauth)
    case Err(e) => Err(e)
    case Ok(r) => Ok(r.accessToken)
  }

  // ---------------------------------------------------------------------------
  // Links
  // ---------------------------------------------------------------------------

  const USERS_LINK: string := "https://osu.ppy.sh/api/v2/users/"
  const BEST_SCORES_QUERY: string := "/scores/best?mode=osu&limit=100"
  const RANKING_LINK: string := "https://osu.ppy.sh/api/v2/rankings/osu/performance"

  /** The link `get_user_best_scores` requests: a user's top 100 osu! scores. */
  function BestScoresLink(userId: int): string
  {
    USERS_LINK + IntText(userId) + BEST_SCORES_QUERY
  }

  /** The query of a ranking page, up to the page number. */
  function RankingQuery(ranking: RankingType): string
  {
    match ranking
    case Country(code) => "?country=" + code + "&cursor[page]="
    case Global => "?cursor[page]="
  }

  /** The link `get_ranking` requests for one page. */
  function RankingLink(ranking: RankingType, page: int): string
  {
    RANKING_LINK + RankingQuery(ranking) + IntText(page)
  }

  /** Different users get different links. */
  lemma BestScoresLinkInjective(a: int, b: int)
    requires BestScoresLink(a) == BestScoresLink(b)
    ensures a == b
  {
    var la, lb := BestScoresLink(a), BestScoresLink(b);
    var p := |USERS_LINK|;
    assert |IntText(a)| == |IntText(b)|;
    assert la[p..p + |IntText(a)|] == IntText(a);
    assert lb[p..p + |IntText(b)|] == IntText(b);
    IntTextInjective(a, b);
  }

  /** Different pages of one ranking get different links. */
  lemma RankingLinkInjective(ranking: RankingType, p: int, q: int)
    requires RankingLink(ranking, p) == RankingLink(ranking, q)
    ensures p == q
  {
    var prefix := RANKING_LINK + RankingQuery(ranking);
    assert RankingLink(ranking, p)[|prefix|..] == IntText(p);
    assert RankingLink(ranking, q)[|prefix|..] == IntText(q);
    IntTextInjective(p, q);
  }

  /** The links of pages 1 to `k`, in the order they are formatted and requested. */
  function RankingLinks(ranking: RankingType, k: nat): seq<string>
  {
    seq(k, i => RankingLink(ranking, i + 1))
  }

  /** Pages are requested in increasing order, each once. */
  lemma RankingLinksDistinct(ranking: RankingType, k: nat)
    ensures forall i, j :: 0 <= i < j < k ==> RankingLinks(ranking, k)[i] != RankingLinks(ranking, k)[j]
  {
    forall i, j | 0 <= i < j < k
      ensures RankingLinks(ranking, k)[i] != RankingLinks(ranking, k)[j]
    {
      if RankingLinks(ranking, k)[i] == RankingLinks(ranking, k)[j] {
        RankingLinkInjective(ranking, i + 1, j + 1);
      }
    }
  }

  /** The links of pages 1 to `k + 1` are those of pages 1 to `k`, then page `k + 1`'s. */
  lemma RankingLinksStep(ranking: RankingType, k: nat)
    ensures RankingLinks(ranking, k + 1) == RankingLinks(ranking, k) + [RankingLink(ranking, k + 1)]
  {
    assert RankingLinks(ranking, k + 1)[k] == RankingLink(ranking, k + 1);
  }

  /** The number of users a full ranking page holds. */
  const PAGE_SIZE: nat := 50

  // ---------------------------------------------------------------------------
  // Requests on behalf of a client, and pagination
  // ---------------------------------------------------------------------------

  /** `make_request` for a client holding `token`: without one, NoToken before
      anything is built or sent; otherwise the authorized request's exchange. */
  function Fetch<T>(env: Env, token: Option<string>, verb: HttpMethod, link: string, decode: Decoder<T>): (r: Result<T, OsuApiError>)
    ensures token.None? ==> r == Err(NoToken)
    ensures r.Ok? ==> token.Some? && env.reject(AuthorizedRequest(verb, link, token.value)).None?
  {
    match token
    case None => Err(NoToken)
    case Some(t) => Exchange(env, AuthorizedRequest(verb, link, t), decode)
  }

  /** What requesting each page of a ranking gives. */
  type PageFetch = int -> Result<RankingResponse, OsuApiError>

  /** The page requests of `get_ranking` for a client holding `token`. */
  function RankingFetch(env: Env, token: Option<string>, ranking: RankingType): PageFetch
  {
    page => Fetch(env, token, Get, RankingLink(ranking, page), env.decodeRanking)
  }

  /** What `get_ranking` returns after pages 1 to `k`: the page rankings in
      order, or the error of the first page that fails. */
  function Paginate(fetch: PageFetch, k: nat): Result<seq<UserStatistics>, OsuApiError>
  {
    if k == 0 then Ok([])
    else match Paginate(fetch, k - 1)
      case Err(e) => Err(e)
      case Ok(buff) =>
        match fetch(k)
        case Err(e) => Err(e)
        case Ok(page) => Ok(buff + page.ranking)
  }

  /** A failing page fails every longer call with its error. */
  lemma {:induction false} PaginateFails(fetch: PageFetch, k: nat, n: nat)
    requires 1 <= k <= n && Paginate(fetch, k - 1).Ok? && fetch(k).Err?
    ensures Paginate(fetch, n) == Err(fetch(k).error)
    decreases n
  {
    if n > k {
      PaginateFails(fetch, k, n - 1);
    }
  }

  /** The call succeeds exactly when every page does; its error is otherwise
      that of the first failing page. */
  lemma {:induction false} PaginateSpec(fetch: PageFetch, k: nat)
    ensures Paginate(fetch, k).Ok? <==> forall p :: 1 <= p <= k ==> fetch(p).Ok?
    ensures Paginate(fetch, k).Err? ==>
              exists p :: 1 <= p <= k && fetch(p) == Err(Paginate(fetch, k).error)
                          && forall q :: 1 <= q < p ==> fetch(q).Ok?
  {
    if k > 0 {
      PaginateSpec(fetch, k - 1);
    }
  }

  /** The users of the first `j` pages come first, in order, among those of `k` pages. */
  lemma {:induction false} PaginatePrefix(fetch: PageFetch, j: nat, k: nat)
    requires j <= k && Paginate(fetch, k).Ok?
    ensures Paginate(fetch, j).Ok?
    ensures Paginate(fetch, j).value <= Paginate(fetch, k).value
    decreases k
  {
    if j < k {
      PaginatePrefix(fetch, j, k - 1);
    }
  }

  /** One more page that succeeds extends the users by its ranking. */
  lemma PaginateStep(fetch: PageFetch, k: nat, buff: seq<UserStatistics>, page: RankingResponse)
    requires 1 <= k && Paginate(fetch, k - 1) == Ok(buff) && fetch(k) == Ok(page)
    ensures Paginate(fetch, k) == Ok(buff + page.ranking)
  {
  }

  /** Page `k`'s users follow those of pages 1 to `k - 1`. */
  lemma PaginateLastPage(fetch: PageFetch, k: nat)
    requires 1 <= k && Paginate(fetch, k).Ok?
    ensures fetch(k).Ok? && Paginate(fetch, k - 1).Ok?
    ensures Paginate(fetch, k).value == Paginate(fetch, k - 1).value + fetch(k).value.ranking
  {
  }

  /** With every page full, `k` pages give `50 * k` users (two pages, one hundred). */
  lemma {:induction false} FullPages(fetch: PageFetch, k: nat)
    requires forall p :: 1 <= p <= k ==> fetch(p).Ok? && |fetch(p).value.ranking| == PAGE_SIZE
    ensures Paginate(fetch, k).Ok? && |Paginate(fetch, k).value| == PAGE_SIZE * k
  {
    if k > 0 {
      FullPages(fetch, k - 1);
    }
  }

  /** Without a token nothing is sent: every call fails with NoToken,
      whatever the network and the decoders would do, and so does every
      ranking of at least one page. */
  lemma NoTokenNoRequest<T>(env: Env, env2: Env, verb: HttpMethod, link: string, decode: Decoder<T>, ranking: RankingType, k: nat)
    ensures Fetch(env, None, verb, link, decode) == Err(NoToken)
    ensures Fetch(env, None, verb, link, decode) == Fetch(env2, None, verb, link, decode)
    ensures 1 <= k ==> Paginate(RankingFetch(env, None, ranking), k) == Err(NoToken)
  {
    if 1 <= k {
      PaginateFails(RankingFetch(env, None, ranking), 1, k);
    }
  }

  /** A success means the authorized request was built and sent, its reply was
      a 200 with a readable body, and that body decoded to the value. */
  lemma FetchOk<T>(env: Env, token: Option<string>, verb: HttpMethod, link: string, decode: Decoder<T>)
    requires Fetch(env, token, verb, link, decode).Ok?
    ensures token.Some?
    ensures var req := AuthorizedRequest(verb, link, token.value);
            env.reject(req).None? && env.send(req).Ok? && env.send(req).value.status == OK
            && env.send(req).value.body.Ok?
            && decode(env.send(req).value.body.value) == Ok(Fetch(env, token, verb, link, decode).value)
  {
  }

  /** A 200 whose body does not decode is a parsing error holding the very
      bytes received, never an API error. */
  lemma UndecodableSuccess<T>(env: Env, token: string, verb: HttpMethod, link: string, decode: Decoder<T>, bytes: Bytes)
    requires env.reject(AuthorizedRequest(verb, link, token)).None?
    requires env.send(AuthorizedRequest(verb, link, token)) == Ok(Response(OK, Ok(bytes)))
    requires decode(bytes).Err?
    ensures Fetch(env, Some(token), verb, link, decode) == Err(ParsingError(decode(bytes).error, bytes))
  {
  }

  // ---------------------------------------------------------------------------
  // The client
  // ---------------------------------------------------------------------------

  class OsuApi {
    const clientId: int
    const clientSecret: string
    var token: Option<string>

    /** The client before the OAuth exchange: no token yet. */
    constructor Init(clientId: int, clientSecret: string)
      ensures this.clientId == clientId && this.clientSecret == clientSecret
      ensures token == None
    {
      this.clientId := clientId;
      this.clientSecret := clientSecret;
      token := None;
    }

    /** `new`: a client whose token is the one the OAuth exchange grants; no
        client when the exchange fails. */
    static method New(env: Env, clientId: int, clientSecret: string) returns (r: Result<OsuApi, OsuApiError>)
      ensures r.Ok? <==> RequestOauth(env, clientId, clientSecret).Ok?
      ensures r.Ok? ==> fresh(r.value) && r.value.clientId == clientId && r.value.clientSecret == clientSecret
      ensures r.Ok? ==> r.value.token == Some(RequestOauth(env, clientId, clientSecret).value)
      ensures r.Err? ==> r.error == RequestOauth(env, clientId, clientSecret).error
    {
      var api := new OsuApi.Init(clientId, clientSecret);
      var granted := RequestOauth(env, api.clientId, api.clientSecret);
      match granted
      case Err(e) =>
        return Err(e);
      case Ok(t) =>
        api.token := Some(t);
        return Ok(api);
    }

    /** `make_request` with this client's token. */
    function MakeRequest<T>(env: Env, verb: HttpMethod, link: string, decode: Decoder<T>): Result<T, OsuApiError>
      reads this
    {
      Fetch(env, token, verb, link, decode)
    }

    /** `get_user_best_scores`: the user's best scores, requested with this
        client's token from the user's own link. */
    function GetUserBestScores(env: Env, userId: int): (r: Result<seq<Score>, OsuApiError>)
      reads this
      ensures token.None? ==> r == Err(NoToken)
      ensures r.Ok? ==> token.Some? && env.send(AuthorizedRequest(Get, BestScoresLink(userId), token.value)).Ok?
    {
      var r := MakeRequest(env, Get, BestScoresLink(userId), env.decodeScores);
      if r.Ok? then FetchOk(env, token, Get, BestScoresLink(userId), env.decodeScores); r else r
    }

    /** `get_ranking`: requests pages 1 to `pages` in order and extends the
        buffer with each page's ranking; the first failing page ends the call.
        `links` lists the page links formatted, one per page attempted; without
        a token the first link is formatted and `make_request` then refuses it,
        so nothing goes over the network. A negative `pages` makes the source
        panic when it sizes the buffer. */
    method GetRanking(env: Env, ranking: RankingType, pages: int)
      returns (r: Result<seq<UserStatistics>, OsuApiError>, links: seq<string>)
      requires 0 <= pages
      ensures r == Paginate(RankingFetch(env, token, ranking), pages)
      ensures |links| <= pages && links == RankingLinks(ranking, |links|)
      ensures r.Ok? ==> |links| == pages
      ensures r.Err? ==> 1 <= |links| && Paginate(RankingFetch(env, token, ranking), |links| - 1).Ok?
                         && RankingFetch(env, token, ranking)(|links|) == Err(r.error)
    {
      var fetch := RankingFetch(env, token, ranking);
      var buff: seq<UserStatistics> := [];
      links := [];
      var page := 1;
      while page <= pages
        invariant 1 <= page <= pages + 1
        invariant Paginate(fetch, page - 1) == Ok(buff)
        invariant links == RankingLinks(ranking, page - 1)
      {
        var link := RankingLink(ranking, page);
        RankingLinksStep(ranking, page - 1);
        links := links + [link];
        var response := MakeRequest(env, Get, link, env.decodeRanking);
        assert response == fetch(page);
        match response
        case Err(e) =>
          assert fetch(page) == Err(e);
          PaginateFails(fetch, page, pages);
          assert |links| == page;
          return Err(e), links;
        case Ok(got) =>
          PaginateStep(fetch, page, buff, got);
          buff := buff + got.ranking;
        page := page + 1;
      }
      r := Ok(buff);
    }
  }

  // ---------------------------------------------------------------------------
  // Properties of the classification
  // ---------------------------------------------------------------------------

  /** A body that cannot be read is a transport error, whatever the status. */
  lemma UnreadableBody(status: int, status2: int, e: TransportError, d: Decoder<ApiErrorResponse>)
    ensures HandleError(Response(status, Err(e)), d) == Err(HyperError(e))
    ensures HandleError(Response(status, Err(e)), d) == HandleError(Response(status2, Err(e)), d)
  {
  }

  /** 400, 429 and 503 have fixed errors that neither the body nor the decoder changes. */
  lemma FixedStatuses(status: int, b: Bytes, b2: Bytes, d: Decoder<ApiErrorResponse>, d2: Decoder<ApiErrorResponse>)
    requires status == BAD_REQUEST || status == TOO_MANY_REQUESTS || status == SERVICE_UNAVAILABLE
    ensures HandleError(Response(status, Ok(b)), d) == HandleError(Response(status, Ok(b2)), d2)
    ensures status == BAD_REQUEST ==> HandleError(Response(status, Ok(b)), d) == Err(BadRequest)
    ensures status == TOO_MANY_REQUESTS ==> HandleError(Response(status, Ok(b)), d) == Err(RateLimited)
    ensures status == SERVICE_UNAVAILABLE ==> HandleError(Response(status, Ok(b)), d) == Err(ServiceUnavailable)
  {
  }

  /** Any other status is an API error carrying the decoded `{"error": ...}`
      document, or a parsing error carrying the unchanged body. */
  lemma OtherStatus(status: int, b: Bytes, d: Decoder<ApiErrorResponse>)
    requires status != OK && status != BAD_REQUEST && status != TOO_MANY_REQUESTS && status != SERVICE_UNAVAILABLE
    ensures HandleError(Response(status, Ok(b)), d).Err?
    ensures HandleError(Response(status, Ok(b)), d).error.ApiError? <==> d(b).Ok?
    ensures d(b).Ok? ==> HandleError(Response(status, Ok(b)), d).error.response == d(b).value
    ensures d(b).Err? ==> HandleError(Response(status, Ok(b)), d).error == ParsingError(d(b).error, b)
  {
  }

  /** An API error only ever comes from a status without an error of its own. */
  lemma ApiErrorStatus(res: Response, d: Decoder<ApiErrorResponse>)
    requires HandleError(res, d).Err? && HandleError(res, d).error.ApiError?
    ensures res.status != OK && res.status != BAD_REQUEST
    ensures res.status != TOO_MANY_REQUESTS && res.status != SERVICE_UNAVAILABLE
  {
  }
}
