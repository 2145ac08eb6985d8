# osu! top-scores scraper: mods codec, API client and report loop

This project models the core of a small osu! tool. The tool takes a list of ranked players, asks the osu! web API for each player's best scores, keeps the scores set inside a time window, and writes one report row per kept score. The model covers three parts.

- **The mods codec** (`mods.dfy`). A score's gameplay modifiers are a 32-bit flag set (`OsuMods`, here `bv32`). `NIGHTCORE` and `PERFECT` are aliases that also carry the `DOUBLETIME` and `SUDDENDEATH` bits.
  - `to_string` writes the set as a run of two-letter acronyms in a fixed order.
  - `from_str` upper-cases the text, cuts it into two-character pieces and ignores any piece it does not know.
  - The JSON visitor takes a single acronym with a case-sensitive lookup that rejects unknown values. It also takes an array of such values and ors them together.
- **The API client** (`api.dfy`).
  - The request pipeline checks the token, builds the authorised request, sends it, classifies the status (`handle_error`) and decodes the body (`parse_bytes`).
  - The OAuth handshake runs inside `new`.
  - The best-scores link and the ranking links are built from their parts.
  - `get_ranking` fetches one page after another and stops at the first failure.
- **The report loop** (`report.dfy`). The main loop takes the first `amount` players, fetches each player's best scores (the first failure aborts the run), keeps the scores strictly inside `(from, to)` and builds the output rows.

The network, the JSON library and date formatting are parameters of the model.
- `Env.reject` decides whether a request can be built. `Env.send` is the transport, returning a status and a body or a transport error.
- The `Decoder<T>` functions map response bytes to a value or a JSON error.
- `formatDate` is the timestamp formatter.
- `text.dfy` spells out how integers are formatted inside links.
- `errors.dfy` holds the error enumeration of `src/error.rs`.

Each stateful operation is proved against a specification function:
- `ToString` against `Encode`.
- `VisitSeq` against `SeqUnion`.
- `GetRanking` against `Paginate`.
- `CollectRows` against `Collect`.

The lemmas beside each of these functions state what the source promises.

Behaviour of the code that the model keeps as written:
- The single-acronym JSON decoder is case-sensitive: it matches acronyms without upper-casing them.
- A failed per-player fetch aborts the whole run; the player is not skipped (the `?` at `src/main.rs:84`).
- `country_rank` is the player's 0-based position in the list.
- The strict JSON decoder does not fall back to the lenient one.
- The date window is strict at both ends (`src/main.rs:88`).

## Model

| member | source | states |
|---|---|---|
| Text.IntTextRoundTrip | src/osu_api.rs:328-331 | the decimal text written for an integer inside a link is non-empty and reads back as that integer |
| Text.IntTextInjective | src/osu_api.rs:328-331 | distinct integers are written as distinct texts |
| Mods.ChunksPartition | src/osu_api.rs:53-70 | the pieces `cut` yields concatenate back to the input; every piece holds 1 to n characters; every piece but the last holds exactly n; the empty string yields no pieces |
| Mods.ChunksOfFlatten | src/osu_api.rs:53-70 | cutting a concatenation of n-character pieces gives those pieces back |
| Mods.ChunksAppend | src/osu_api.rs:53-70 | cutting into pairs distributes over concatenation when the left part has even length |
| Mods.Cut | src/osu_api.rs:53-70 | the step-by-step cut returns exactly the partition into n-character pieces, for every n of at least 1 |
| Mods.ToString | src/osu_api.rs:95-147 | the string built push by push is the canonical encoding `Encode(m)` |
| Mods.PushIfContains | src/osu_api.rs:104-115 | one conditional push extends the encoding by the next position of the order |
| Mods.PushSpeed | src/osu_api.rs:116-122 | the speed step writes NC, DT or nothing and extends the encoding by that position |
| Mods.EncodeFlattensEmitted | src/osu_api.rs:95-147 | the encoding is the concatenation of the emitted acronyms |
| Mods.EncodeOrdered | src/osu_api.rs:104-145 | emitted acronyms follow the fixed order strictly, are two letters each and never repeat |
| Mods.EmittedMembers | src/osu_api.rs:104-145 | for a non-empty set, an acronym is emitted exactly when its position of the order writes it |
| Mods.NightcoreReplacesDoubletime | src/osu_api.rs:116-122 | NIGHTCORE emits NC and not DT; DOUBLETIME without NIGHTCORE emits DT and not NC; neither is emitted without DOUBLETIME |
| Mods.PerfectWritesSuddendeathToo | src/osu_api.rs:132-140 | PERFECT emits both SD and PF, and PF appears exactly when PERFECT is contained |
| Mods.EncodeNoModIff | src/osu_api.rs:99-102 | the encoding is "NM" if and only if the set is empty |
| Mods.FromStr | src/osu_api.rs:149-178 | parsing always succeeds, with the lenient decoding of the input |
| Mods.UpperIdempotent | src/osu_api.rs:152 | upper-casing twice is upper-casing once |
| Mods.LenientIgnoresCase | src/osu_api.rs:152 | the lenient decoder gives the same flags for a text and its upper-cased form |
| Mods.LenientConcat | src/osu_api.rs:155-175 | decoding an even-length prefix followed by a suffix ors the two decodings |
| Mods.LenientPair | src/osu_api.rs:155-173 | a two-character text decodes to its table entry after upper-casing |
| Mods.LenientIgnoredChunk | src/osu_api.rs:157-172 | appending an unknown or NM pair to an even-length text leaves its decoding unchanged |
| Mods.LenientDropsOddTail | src/osu_api.rs:53-70 | a trailing single character never changes the lenient decoding |
| Mods.UnionUpper | src/osu_api.rs:155-175 | the accumulated flags contain every piece's flags |
| Mods.UnionLeast | src/osu_api.rs:155-175 | any set containing every piece's flags contains the accumulated flags |
| Mods.SlotReadsBack | src/osu_api.rs:104-170 | each position of the order decodes back to the plain bits it checks for, plus NIGHTCORE's or PERFECT's alias bits at their positions, and that lies within what the round trip keeps |
| Mods.UnionEmittedRetained | src/osu_api.rs:95-175 | for a non-empty set, the union of the emitted acronyms' flags is exactly the retained part of the set |
| Mods.RetainedExactly | src/osu_api.rs:72-93 | the retained part equals the set exactly when the set is made only of flags the encoder writes and the decoder reads back, with 512 only beside 64 and 16384 only beside 32 |
| Mods.UpperOfEncoded | src/osu_api.rs:95-152 | upper-casing the encoding changes nothing |
| Mods.DecodeEncoded | src/osu_api.rs:95-178 | decoding the encoding gives the union of the emitted acronyms' flags |
| Mods.RoundTrip | src/osu_api.rs:95-178 | `from_str(to_string(m))` is the retained part of `m`, and it equals `m` if and only if `m` is representable |
| Mods.RoundTripLimits | src/osu_api.rs:95-178 | MIRROR, RELAX, FADEIN, SCOREV2 and the lone alias bits 512 and 16384 come back empty; NIGHTCORE, PERFECT and HIDDEN together come back whole |
| Mods.VisitStr | src/osu_api.rs:200-226 | a single JSON string decodes exactly when it is one of the fifteen known acronyms, case-sensitively, and otherwise fails with an invalid-value error naming it |
| Mods.VisitSeq | src/osu_api.rs:190-198 | the loop over the array returns the array's union, or the first element error |
| Mods.SeqUnionErrSticky | src/osu_api.rs:193 | once a prefix of the array fails, the whole array fails with the same error |
| Mods.Deserialize | src/osu_api.rs:229-234 | a value that is neither a string nor an array is an invalid type, a string decodes exactly when it is a known acronym, and every invalid-value error names a text that is not one; `VisitStr`, `SeqUnionSpec` and `EncodedArrayRoundTrip` state the rest |
| Mods.SeqUnion | src/osu_api.rs:190-198 | every invalid-value error of an array names a text that is not a known acronym |
| Mods.SeqUnionSpec | src/osu_api.rs:190-198 | an array decodes if and only if every element decodes; the result contains each element's flags; a failure is the first failing element's error |
| Mods.SeqUnionLeast | src/osu_api.rs:190-198 | any set containing every element's flags contains the array's result |
| Mods.StrictAgreesWithLenient | src/osu_api.rs:149-226 | where the strict decoder accepts a string, the lenient decoder gives the same flags |
| Mods.StrictIsCaseSensitive | src/osu_api.rs:200-226 | "hd" and "MR" are rejected strictly but decoded leniently as HIDDEN and as empty; "HD" and "NM" are accepted |
| Mods.PositionKnown | src/osu_api.rs:141-170 | every acronym the encoder writes except MR is in the decoder's table, and MR is the last position |
| Mods.StrSeqUnion | src/osu_api.rs:190-226 | an array of known acronyms decodes to the union of their flags |
| Mods.EmittedKnown | src/osu_api.rs:104-216 | every emitted acronym is known to the strict decoder except MR, and MR is emitted exactly for MIRROR |
| Mods.MirrorEmitted | src/osu_api.rs:141-143 | for a non-empty set, "MR" is written exactly when MIRROR is set |
| Mods.EncodedArrayWithMirror | src/osu_api.rs:141-226 | the emitted acronyms of a set with MIRROR, sent as a JSON array, are rejected on "MR" |
| Mods.EncodedArrayRoundTrip | src/osu_api.rs:95-234 | the emitted acronyms sent as a JSON array decode to the retained part of the set, or fail on "MR" exactly when MIRROR is set |
| Api.AuthorizedRequest | src/osu_api.rs:382-389 | the request carries the given link, method and an empty body, with the header `Authorization: Bearer <token>` |
| Api.HandleError | src/osu_api.rs:397-414 | the status check passes if and only if the body was read and the status is 200, and it then yields the body; `UnreadableBody`, `FixedStatuses`, `OtherStatus` and `ApiErrorStatus` state the error for every other reply |
| Api.UnreadableBody | src/osu_api.rs:398 | a body that cannot be read is a transport error whatever the status |
| Api.FixedStatuses | src/osu_api.rs:399-404 | statuses 400, 429 and 503 map to BadRequest, RateLimited and ServiceUnavailable whatever the body |
| Api.OtherStatus | src/osu_api.rs:404-413 | any other non-200 status is an error: an API error carrying the decoded error body if it decodes, otherwise a parsing error keeping the raw bytes |
| Api.ApiErrorStatus | src/osu_api.rs:397-414 | an API error only arises from a status other than 200, 400, 429 and 503 |
| Api.ParseBytes | src/osu_api.rs:416-421 | decoding succeeds exactly when the JSON decoder does, with its value, and a failure is a parsing error holding the decoder's error and the raw bytes |
| Api.Exchange | src/osu_api.rs:382-394 | a request succeeds exactly when the builder accepts it, the transport delivers a reply, the status check passes and the body decodes; a request the builder refuses is an HTTP error |
| Api.Fetch | src/osu_api.rs:376-395 | without a token the call is `NoToken`, and a success needs a token and a request the builder accepts; `FetchOk`, `UndecodableSuccess` and `NoTokenNoRequest` state the rest |
| Api.OauthRequest | src/osu_api.rs:423-441 | the token request is a POST to the OAuth link carrying the client credentials, and it has no `Authorization` header |
| Api.RequestOauth | src/osu_api.rs:423-448 | the token request succeeds exactly when its exchange does, and then yields the response's access token |
| Api.NoTokenNoRequest | src/osu_api.rs:376-380 | without a token every request fails with NoToken whatever the network would answer, and so does any ranking of at least one page |
| Api.FetchOk | src/osu_api.rs:376-395 | a successful request had a token; its authorised request was built and sent, answered 200 with a readable body, and that body decoded to the result |
| Api.UndecodableSuccess | src/osu_api.rs:392-394 | a 200 answer whose body does not decode fails with a parsing error keeping the body |
| Api.OsuApi.Init | src/osu_api.rs:315-320 | a new client stores the credentials and holds no token |
| Api.OsuApi.New | src/osu_api.rs:306-325 | construction succeeds exactly when the OAuth exchange does, and the new client holds the returned access token; a failure is the exchange's error |
| Api.OsuApi.GetUserBestScores | src/osu_api.rs:327-336 | without a token the call fails with NoToken; on success the best-scores request for that user was sent |
| Api.BestScoresLinkInjective | src/osu_api.rs:327-333 | distinct users get distinct best-scores links |
| Api.RankingLinkInjective | src/osu_api.rs:346-364 | distinct pages of one ranking get distinct links |
| Api.RankingLinksDistinct | src/osu_api.rs:346-364 | the links formatted for pages 1 to k are pairwise distinct |
| Api.OsuApi.GetRanking | src/osu_api.rs:338-373 | the loop returns the pages' concatenation or the first failure; it formats the page links in order from page 1, all of them on success, and stops at the failing page, whose predecessors succeeded |
| Api.PaginateSpec | src/osu_api.rs:346-372 | pagination succeeds if and only if every page does; a failure is the first failing page's error |
| Api.PaginateFails | src/osu_api.rs:367 | one failing page, after successful earlier ones, is the result for any larger page count |
| Api.PaginatePrefix | src/osu_api.rs:366-369 | fetching fewer pages gives a prefix of the entries |
| Api.PaginateLastPage | src/osu_api.rs:367-369 | a successful run of k pages is the run of k-1 pages extended by page k's entries |
| Api.FullPages | src/osu_api.rs:469-471 | when every page holds 50 entries, k pages give 50·k entries, so 2 pages give 100 |
| Report.Taken | src/main.rs:78 | the loop visits min(amount, number of users) players |
| Report.CollectRows | src/main.rs:78-104 | the nested loop returns the rows of the first players in order, or the first fetch error |
| Report.KeptMembers | src/main.rs:86-88 | a score is kept if and only if it was fetched and its time lies strictly between the bounds |
| Report.KeptAppend | src/main.rs:86-88 | filtering distributes over concatenation, so the order of scores is kept |
| Report.KeptSingle | src/main.rs:88 | a single score is kept exactly when it lies inside the window |
| Report.AppendUserRows | src/main.rs:86-103 | the inner loop appends to the rows so far, in order, exactly the rows of the player's scores that lie strictly inside the window |
| Report.CollectSpec | src/main.rs:78-104 | collection succeeds if and only if every visited player's fetch succeeds; a failure is the first failing player's error |
| Report.CollectFails | src/main.rs:84 | a failing fetch ends collection with that error, whatever later players there are |
| Report.CollectPrefixOnly | src/main.rs:78 | players beyond the first `amount` never influence the result |
| Report.CollectRowsShape | src/main.rs:78-103 | the number of rows is the number of kept scores; rows are grouped by non-decreasing player position below the bound; username, global rank and total pp come from the row's player |
| Report.RowFields | src/main.rs:90-102 | a row links to the score page by the score's id, names the map as "artist - title" and the difficulty by its version, copies the score's pp and replay flag, ranks the player by its index, and its mods text decodes back to the score's retained mods |
| Report.ScoreLinkInjective | src/main.rs:97 | distinct scores get distinct score links |

## Left out

- The HTTP client, TLS, connection pooling and `async` execution are not modelled. A request is a value, and the network is the `Env` oracle, a pure function of the request.
- JSON decoding by `serde_json` is an oracle (`Decoder<T>`). Only the mods visitor is spelled out. Its `deserialize_any` dispatch is modelled as three wire shapes: a string, an array, or anything else, which is rejected as an invalid type.
- The custom timestamp deserialiser, `str_to_datetime!` and `chrono` formatting are not modelled. Timestamps are integers, and `formatDate` is a parameter.
- `f32` values (accuracy, pp) are opaque bit patterns. They are only copied, never computed with.
- The OAuth request body's JSON text is abstracted as `Credentials(clientId, clientSecret)`. The `Accept`, `Content-Type` and `User-Agent` headers are listed, but only the `Authorization` header is stated in a contract.
- Upper-casing is ASCII only. Rust's `to_uppercase` also maps non-ASCII letters, some of them to several characters.
- Integer widths are not modelled: `i32` pages and ranks and `i64` ids are unbounded integers. The `index as i32` cast at `src/main.rs:99` cannot wrap, because the index is below `amount`, which is itself an `i32`.
- Api.OsuApi.GetRanking and Report.CollectRows require non-negative `pages` and `amount`. With negative values the source panics where it sizes its buffer (`src/osu_api.rs:344`, `src/main.rs:76`), and a panic is not modelled.
- Report.CollectRows takes the ranked players as an input. `get_country_ranking`, called at `src/main.rs:74`, is not defined in the repository.
- The command-line parsing, the `.env` loading, the progress output and the CSV writing of `main` are not modelled.
- The field `map` of the output record is named `mapTitle`, because `map` is a Dafny keyword.
- The `From` conversions of `src/error.rs` are represented by the error constructors they produce. Error messages are not modelled.
- The acronym tables of `from_str` and `visit_str` are identical, so both are modelled once, as `AcronymFlags`.
- Api.OsuApi.GetUserBestScores states the request it sends and the no-token case. The rest of its behaviour follows from `Fetch`, which the lemmas `FetchOk`, `UndecodableSuccess` and `NoTokenNoRequest` describe.
