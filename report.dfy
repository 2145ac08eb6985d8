/** The report `main` builds: for each of the first `amount` users of a ranking,
    in ranking order, that user's best scores set strictly inside the time
    window, one output row per score. The ranking list is an input, the
    per-user score request goes through the API client, and timestamps are
    integers that an oracle formats. */
module Report {
  import opened Wrappers
  import opened Errors
  import opened Text
  import opened Mods
  import opened Api

  /** One row of the report. */
  datatype Output = Output(
    username: string,
    pp: F32,
    date: string,
    replay: bool,
    mapTitle: string,
    diff: string,
    scoreLink: string,
    mods: string,
    countryRank: int,
    globalRank: int,
    totalPp: F32)

  /** The `from` and `to` timestamps of the command line. */
  datatype Window = Window(from: int, to: int)

  /** The filter of the score loop: both bounds are excluded. */
  predicate InWindow(w: Window, s: Score)
  {
    w.from < s.createdAt && s.createdAt < w.to
  }

  /** The scores the filter lets through, in the order they came. */
  function Kept(w: Window, scores: seq<Score>): seq<Score>
  {
    if scores == [] then []
    else if InWindow(w, scores[|scores| - 1]) then Kept(w, scores[..|scores| - 1]) + [scores[|scores| - 1]]
    else Kept(w, scores[..|scores| - 1])
  }

  const SCORE_LINK: string := "https://osu.ppy.sh/scores/osu/"

  /** The page of a score on the osu! website. */
  function ScoreLink(id: int): string
  {
    SCORE_LINK + IntText(id)
  }

  /** The row a kept score of the user at `index` of the ranking becomes;
      `formatDate` renders a timestamp as "%Y-%m-%d %H:%M:%S". */
  function Row(user: UserStatistics, index: int, score: Score, formatDate: int -> string): Output
  {
    Output(
      user.user.username,
      score.pp,
      formatDate(score.createdAt),
      score.replay,
      score.beatmapset.artist + " - " + score.beatmapset.title,
      score.beatmap.version,
      ScoreLink(score.id),
      Encode(score.mods),
      index,
      user.globalRank,
      user.pp)
  }

  /** The rows of one user: one per kept score, in order. */
  function UserRows(user: UserStatistics, index: int, scores: seq<Score>, w: Window, formatDate: int -> string): seq<Output>
  {
    seq(|Kept(w, scores)|, i requires 0 <= i < |Kept(w, scores)| => Row(user, index, Kept(w, scores)[i], formatDate))
  }

  /** What requesting a user's best scores gives, by user id. */
  type UserFetch = int -> Result<seq<Score>, OsuApiError>

  /** The score requests of `main` for a client holding `token`. */
  function ScoresFetch(env: Env, token: Option<string>): UserFetch
  {
    id => Fetch(env, token, Get, BestScoresLink(id), env.decodeScores)
  }

  /** The report after the first `k` users: their rows user by user, or the
      error of the first user whose scores could not be fetched. */
  function Collect(fetch: UserFetch, users: seq<UserStatistics>, w: Window, formatDate: int -> string, k: nat)
    : Result<seq<Output>, OsuApiError>
    requires k <= |users|
  {
    if k == 0 then Ok([])
    else match Collect(fetch, users, w, formatDate, k - 1)
      case Err(e) => Err(e)
      case Ok(rows) =>
        match fetch(users[k - 1].user.id)
        case Err(e) => Err(e)
        case Ok(scores) => Ok(rows + UserRows(users[k - 1], k - 1, scores, w, formatDate))
  }

  /** `take(amount as usize)`: no more users than the ranking has. */
  function Taken(amount: nat, users: seq<UserStatistics>): (n: nat)
    ensures n <= |users| && n <= amount
    ensures n == amount || n == |users|
  {
    if amount < |users| then amount else |users|
  }

  /** The loop of `main` over the first `amount` users, enumerated from 0: it
      requests each user's best scores, and a failed request ends the run with
      its error; each score strictly inside the window adds a row. A negative
      `amount` makes the source panic when it sizes the output buffer. */
  method CollectRows(api: OsuApi, env: Env, users: seq<UserStatistics>, w: Window, amount: int, formatDate: int -> string)
    returns (r: Result<seq<Output>, OsuApiError>)
    requires 0 <= amount
    ensures r == Collect(ScoresFetch(env, api.token), users, w, formatDate, Taken(amount, users))
  {
    var fetch := ScoresFetch(env, api.token);
    var n := Taken(amount, users);
    var output: seq<Output> := [];
    for index := 0 to n
      invariant Collect(fetch, users, w, formatDate, index) == Ok(output)
    {
      var userStats := users[index];
      var fetched := api.GetUserBestScores(env, userStats.user.id);
      assert fetched == fetch(userStats.user.id);
      match fetched
      case Err(e) =>
        CollectFails(fetch, users, w, formatDate, index + 1, n);
        return Err(e);
      case Ok(scores) =>
        var before := output;
        output := AppendUserRows(output, userStats, index, scores, w, formatDate);
        CollectStep(fetch, users, w, formatDate, index, before, scores);
    }
    r := Ok(output);
  }

  /** The inner loop of `main` for the user at `index`: each score strictly
      inside the window pushes its row onto `output`, in order. */
  method AppendUserRows(output: seq<Output>, userStats: UserStatistics, index: int, scores: seq<Score>,
                        w: Window, formatDate: int -> string)
    returns (next: seq<Output>)
    ensures next == output + UserRows(userStats, index, scores, w, formatDate)
  {
    next := output;
    for j := 0 to |scores|
      invariant next == output + UserRows(userStats, index, scores[..j], w, formatDate)
    {
      var score := scores[j];
      UserRowsStep(userStats, index, scores, j, w, formatDate);
      if w.from < score.createdAt && score.createdAt < w.to {
        var row := Output(
          userStats.user.username,
          score.pp,
          formatDate(score.createdAt),
          score.replay,
          score.beatmapset.artist + " - " + score.beatmapset.title,
          score.beatmap.version,
          SCORE_LINK + IntText(score.id),
          Encode(score.mods),
          index,
          userStats.globalRank,
          userStats.pp);
        assert row == Row(userStats, index, score, formatDate);
        next := next + [row];
      }
    }
    assert scores[..|scores|] == scores;
  }

  // ---------------------------------------------------------------------------
  // Properties
  // ---------------------------------------------------------------------------

  /** A score is kept exactly when it was returned and lies strictly inside the
      window; scores at either bound are dropped. */
  lemma {:induction false} KeptMembers(w: Window, scores: seq<Score>, s: Score)
    ensures s in Kept(w, scores) <==> s in scores && w.from < s.createdAt < w.to
    decreases |scores|
  {
    if scores != [] {
      var init := scores[..|scores| - 1];
      KeptMembers(w, init, s);
      assert scores == init + [scores[|scores| - 1]];
    }
  }

  /** Filtering keeps order: the kept scores of two runs of scores are those of
      the first run, then those of the second. */
  lemma {:induction false} KeptAppend(w: Window, a: seq<Score>, b: seq<Score>)
    ensures Kept(w, a + b) == Kept(w, a) + Kept(w, b)
    decreases |b|
  {
    if b == [] {
      assert a + b == a;
    } else {
      var init := b[..|b| - 1];
      assert (a + b)[..|a + b| - 1] == a + init;
      assert (a + b)[|a + b| - 1] == b[|b| - 1];
      KeptAppend(w, a, init);
    }
  }

  /** The filter lets a score through alone exactly when it is in the window. */
  lemma KeptSingle(w: Window, s: Score)
    ensures Kept(w, [s]) == if InWindow(w, s) then [s] else []
  {
    assert [s][..0] == [];
  }

  /** The filter step the inner loop takes for one more score. */
  lemma UserRowsStep(user: UserStatistics, index: int, scores: seq<Score>, j: nat, w: Window, formatDate: int -> string)
    requires j < |scores|
    ensures UserRows(user, index, scores[..j + 1], w, formatDate)
            == UserRows(user, index, scores[..j], w, formatDate)
               + (if InWindow(w, scores[j]) then [Row(user, index, scores[j], formatDate)] else [])
  {
    assert scores[..j + 1] == scores[..j] + [scores[j]];
    KeptAppend(w, scores[..j], [scores[j]]);
    KeptSingle(w, scores[j]);
  }

  /** One more user whose scores were fetched adds that user's rows. */
  lemma CollectStep(fetch: UserFetch, users: seq<UserStatistics>, w: Window, formatDate: int -> string, k: nat,
                    rows: seq<Output>, scores: seq<Score>)
    requires k < |users| && Collect(fetch, users, w, formatDate, k) == Ok(rows)
    requires fetch(users[k].user.id) == Ok(scores)
    ensures Collect(fetch, users, w, formatDate, k + 1) == Ok(rows + UserRows(users[k], k, scores, w, formatDate))
  {
  }

  /** A user whose scores cannot be fetched ends the run: every longer run
      fails with that error, so no partial report is written. */
  lemma {:induction false} CollectFails(fetch: UserFetch, users: seq<UserStatistics>, w: Window, formatDate: int -> string, k: nat, n: nat)
    requires 1 <= k <= n <= |users|
    requires Collect(fetch, users, w, formatDate, k - 1).Ok? && fetch(users[k - 1].user.id).Err?
    ensures Collect(fetch, users, w, formatDate, n) == Err(fetch(users[k - 1].user.id).error)
    decreases n
  {
    if n > k {
      CollectFails(fetch, users, w, formatDate, k, n - 1);
    }
  }

  /** The run succeeds exactly when every processed user's scores were fetched;
      otherwise its error is that of the first user that failed. */
  lemma {:induction false} CollectSpec(fetch: UserFetch, users: seq<UserStatistics>, w: Window, formatDate: int -> string, k: nat)
    requires k <= |users|
    ensures Collect(fetch, users, w, formatDate, k).Ok? <==> forall i :: 0 <= i < k ==> fetch(users[i].user.id).Ok?
    ensures Collect(fetch, users, w, formatDate, k).Err? ==>
              exists i :: 0 <= i < k && fetch(users[i].user.id) == Err(Collect(fetch, users, w, formatDate, k).error)
                          && forall j :: 0 <= j < i ==> fetch(users[j].user.id).Ok?
  {
    if k > 0 {
      CollectSpec(fetch, users, w, formatDate, k - 1);
    }
  }

  /** Only the users processed matter: two rankings that agree on their first
      `k` users give the same report. */
  lemma {:induction false} CollectPrefixOnly(fetch: UserFetch, users: seq<UserStatistics>, users2: seq<UserStatistics>, w: Window, formatDate: int -> string, k: nat)
    requires k <= |users| && k <= |users2| && users[..k] == users2[..k]
    ensures Collect(fetch, users, w, formatDate, k) == Collect(fetch, users2, w, formatDate, k)
  {
    if k > 0 {
      assert users[..k - 1] == users2[..k - 1];
      assert users[k - 1] == users[..k][k - 1];
      CollectPrefixOnly(fetch, users, users2, w, formatDate, k - 1);
    }
  }

  /** The number of in-window scores of the first `k` users, when every
      request succeeds. */
  function KeptCount(fetch: UserFetch, users: seq<UserStatistics>, w: Window, k: nat): nat
    requires k <= |users|
  {
    if k == 0 then 0
    else match fetch(users[k - 1].user.id)
      case Err(_) => KeptCount(fetch, users, w, k - 1)
      case Ok(scores) => KeptCount(fetch, users, w, k - 1) + |Kept(w, scores)|
  }

  /** One row per in-window score of the processed users; users appear in
      ranking order, so the ranks never decrease and stay below `k`; each row
      carries its user's name, global rank and total pp unchanged. */
  lemma {:induction false} CollectRowsShape(fetch: UserFetch, users: seq<UserStatistics>, w: Window, formatDate: int -> string, k: nat)
    requires k <= |users| && Collect(fetch, users, w, formatDate, k).Ok?
    ensures |Collect(fetch, users, w, formatDate, k).value| == KeptCount(fetch, users, w, k)
    ensures forall i, j :: 0 <= i < j < |Collect(fetch, users, w, formatDate, k).value| ==>
              Collect(fetch, users, w, formatDate, k).value[i].countryRank
              <= Collect(fetch, users, w, formatDate, k).value[j].countryRank
    ensures forall i :: 0 <= i < |Collect(fetch, users, w, formatDate, k).value| ==>
              var row := Collect(fetch, users, w, formatDate, k).value[i];
              0 <= row.countryRank < k
              && row.username == users[row.countryRank].user.username
              && row.globalRank == users[row.countryRank].globalRank
              && row.totalPp == users[row.countryRank].pp
  {
    if k > 0 {
      CollectRowsShape(fetch, users, w, formatDate, k - 1);
    }
  }

  /** The derived fields of a row: the score's page, its mods as `to_string`
      writes them (which read back to the retained flags), "artist - title",
      and the difficulty name. */
  lemma RowFields(user: UserStatistics, index: int, score: Score, formatDate: int -> string)
    ensures var row := Row(user, index, score, formatDate);
            row.scoreLink == SCORE_LINK + IntText(score.id)
            && DecodeLenient(row.mods) == Retained(score.mods)
            && row.mapTitle == score.beatmapset.artist + " - " + score.beatmapset.title
            && row.diff == score.beatmap.version
            && row.countryRank == index && row.pp == score.pp && row.replay == score.replay
  {
    RoundTrip(score.mods);
  }

  /** Different scores get different links. */
  lemma ScoreLinkInjective(a: int, b: int)
    requires ScoreLink(a) == ScoreLink(b)
    ensures a == b
  {
    assert ScoreLink(a)[|SCORE_LINK|..] == IntText(a);
    assert ScoreLink(b)[|SCORE_LINK|..] == IntText(b);
    IntTextInjective(a, b);
  }
}
