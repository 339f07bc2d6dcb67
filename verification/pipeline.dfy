/** The end-to-end flows of `data_pipeline.py`: the historical dataset
    stacked year by year, the feature engineering run before every fit or
    prediction, one generated round, and the bracket built round by round.
    Scraping, the season statistics and the classifier are parameters. */
module Pipeline {

  import opened Results
  import opened Tables
  import opened Features
  import opened Outcomes
  import opened Merge
  import opened Cleaning
  import opened Rounds

  // ---------------------------------------------------------------------------
  // feature_pipeline

  /** The Round column reclassified when it exists; a frame without one is
      passed on as it is, the `KeyError` being swallowed. */
  function Reclassified(t: Table, toNumber: map<Value, Value>, toText: map<Value, Value>): (r: Table)
    ensures r.cols == t.cols && |r.rows| == |t.rows|
    ensures RoundCol !in t.cols ==> r == t
    ensures forall i, c :: 0 <= i < |t.rows| && c != RoundCol ==> Get(r.rows[i], c) == Get(t.rows[i], c)
  {
    match ConvertRounds(t, toNumber, toText)
    case Ok(u) => u
    case Err(_) => t
  }

  /** The engineered frame (which the source mutates in place and later
      reads again) and its scaled copy handed to the model. */
  datatype Featured = Featured(frame: Table, x: Table)

  /** `feature_pipeline`: rounds reclassified, points differentials, the
      underdog-relative conversion, then scaling. */
  function FeaturePipeline(t: Table, toNumber: map<Value, Value>, toText: map<Value, Value>, scaler: Scaler): (r: Result<Featured>)
    ensures r.Ok? ==> |r.value.frame.rows| == |t.rows| && |r.value.x.rows| == |t.rows|
    ensures r.Ok? ==> r.value.x == ScaleFeatures(r.value.frame, scaler)
    ensures r.Ok? ==> r.value.x.cols == Without(r.value.frame.cols, [UpsetCol]) + (if UpsetCol in r.value.frame.cols then [UpsetCol] else [])
    ensures TmGame(Favorite) !in t.cols ==> r == Err(KeyError(Spell(TmGame(Favorite))))
  {
    var pts :- PointsDifferentials(Reclassified(t, toNumber, toText));
    var rel :- UnderdogRelative(pts);
    Ok(Featured(rel, ScaleFeatures(rel, scaler)))
  }

  /** The labels feature engineering never rewrites. */
  predicate Kept(c: Col) {
    c == Fav("Seed") || c == Und("Seed") || c == UpsetCol
  }

  /** The points differentials keep the seeds and the target. */
  lemma PointsKeep(t: Table, i: nat, c: Col)
    requires PointsDifferentials(t).Ok? && i < |t.rows| && Kept(c)
    ensures var u := PointsDifferentials(t).value;
      (c in t.cols ==> c in u.cols) && Get(u.rows[i], c) == Get(t.rows[i], c)
  {
    assert !PointsLabel(c) by {
      assert "Seed"[0] != "PtsDiff"[0] && "Seed"[0] != "Tm./Game"[0] && "Seed"[0] != "Opp./Game"[0];
    }
    PointsDifferentialsCell(t, i, c);
    PointsDifferentialsCols(t, c);
  }

  /** The underdog-relative conversion keeps the seeds and the target. */
  lemma RelativeKeep(t: Table, i: nat, c: Col)
    requires UnderdogRelative(t).Ok? && i < |t.rows| && Kept(c)
    ensures var u := UnderdogRelative(t).value;
      (c in t.cols ==> c in u.cols) && Get(u.rows[i], c) == Get(t.rows[i], c)
  {
    UnrelatedUntouched(t.cols, c);
    RelativeFoldKeeps(t, RelBases(t.cols), i, c);
    if c in t.cols {
      RelativeFoldKeepsCol(t, RelBases(t.cols), c);
    }
  }

  /** The seeds and the target pass through feature engineering untouched:
      same label, same cells, same rows. */
  lemma FeatureFrameKeeps(t: Table, toNumber: map<Value, Value>, toText: map<Value, Value>, scaler: Scaler, i: nat, c: Col)
    requires FeaturePipeline(t, toNumber, toText, scaler).Ok? && i < |t.rows| && Kept(c)
    ensures var f := FeaturePipeline(t, toNumber, toText, scaler).value.frame;
      && (c in t.cols ==> c in f.cols)
      && Get(f.rows[i], c) == Get(t.rows[i], c)
  {
    var u := Reclassified(t, toNumber, toText);
    PointsKeep(u, i, c);
    RelativeKeep(PointsDifferentials(u).value, i, c);
  }

  /** A labelled frame keeps its target: it is the last column of the
      scaled frame and every row keeps its label. */
  lemma FeatureTarget(t: Table, toNumber: map<Value, Value>, toText: map<Value, Value>, scaler: Scaler, i: nat)
    requires FeaturePipeline(t, toNumber, toText, scaler).Ok? && i < |t.rows| && UpsetCol in t.cols
    ensures var x := FeaturePipeline(t, toNumber, toText, scaler).value.x;
      && |x.cols| > 0 && x.cols[|x.cols| - 1] == UpsetCol
      && Get(x.rows[i], UpsetCol) == Get(t.rows[i], UpsetCol)
  {
    var f := FeaturePipeline(t, toNumber, toText, scaler).value.frame;
    FeatureFrameKeeps(t, toNumber, toText, scaler, i, UpsetCol);
    ScaledTarget(f, scaler, i);
  }

  /** Scaling puts the target last and keeps its cells. */
  lemma ScaledTarget(f: Table, scaler: Scaler, i: nat)
    requires UpsetCol in f.cols && i < |f.rows|
    ensures var x := ScaleFeatures(f, scaler);
      && |x.cols| > 0 && x.cols[|x.cols| - 1] == UpsetCol
      && Get(x.rows[i], UpsetCol) == Get(f.rows[i], UpsetCol)
  {
    ScaleFeaturesCell(f, scaler, i, UpsetCol);
  }

  // ---------------------------------------------------------------------------
  // round_pipeline

  /** The matchups round `r` predicts on: the scraped play-in and first
      round as stored, every later round generated from the one before. */
  function Generated(r: nat, matchups: seq<Table>): Result<Table> {
    if r >= 2 then
      if r - 1 < |matchups| then CreateBracketRound(matchups[r - 1]) else Err(IndexError)
    else if r < |matchups| then Ok(matchups[r])
    else Err(IndexError)
  }

  /** `t[['Seed', 'Seed.1']] = t[['Seed', 'Seed.1']].astype(int)`. */
  function IntSeeds(t: Table): (r: Result<Table>)
    ensures r.Ok? <==> (SeedCol in t.cols && Seed1Col in t.cols
      && CastAll(Column(t, SeedCol)).Ok? && CastAll(Column(t, Seed1Col)).Ok?)
    ensures r.Ok? ==> r.value.cols == t.cols && |r.value.rows| == |t.rows|
    ensures r.Ok? ==> forall i :: 0 <= i < |t.rows| ==>
      && CastInt(Get(t.rows[i], SeedCol)) == Ok(Get(r.value.rows[i], SeedCol))
      && CastInt(Get(t.rows[i], Seed1Col)) == Ok(Get(r.value.rows[i], Seed1Col))
    ensures r.Ok? ==> forall i, c :: 0 <= i < |t.rows| && c != SeedCol && c != Seed1Col ==>
      Get(r.value.rows[i], c) == Get(t.rows[i], c)
  {
    var _ :- Need(t.cols, [SeedCol, Seed1Col]);
    var a :- CastAll(Column(t, SeedCol));
    var b :- CastAll(Column(t, Seed1Col));
    Ok(Assign(Assign(t, SeedCol, a), Seed1Col, b))
  }

  /** A list of one value per row. */
  function Repeat(v: Value, n: nat): (r: seq<Value>)
    ensures |r| == n && forall i :: 0 <= i < n ==> r[i] == v
  {
    seq(n, _ => v)
  }

  /** The merged data of a round, its scaled features, and the summary of
      its games. */
  datatype RoundOut = RoundOut(all: Table, x: Table, school: Table)

  const SchoolTeams: seq<Col> := [Fav("Team"), Und("Team")]

  /** `all_round_data[teams]` with the round number added: the summary of
      the round's games. */
  function Summary(all: Table, r: nat): (res: Result<Table>)
    ensures res.Ok? <==> Fav("Team") in all.cols && Und("Team") in all.cols
    ensures res.Ok? ==> var s := res.value;
      && s.cols == SchoolTeams + [RoundCol] && |s.rows| == |all.rows|
      && (forall i :: 0 <= i < |s.rows| ==> Get(s.rows[i], RoundCol) == Int(r))
      && (forall i, c :: 0 <= i < |s.rows| && c in SchoolTeams ==> Get(s.rows[i], c) == Get(all.rows[i], c))
  {
    var teams :- Select(all, SchoolTeams);
    Ok(Assign(teams, RoundCol, Repeat(Int(r), |teams.rows|)))
  }

  /** The merged round before its team names and the null-heavy features
      are dropped. */
  function MergedRound(year: int, currentYear: int, r: nat, matchups: seq<Table>, season: Table): (res: Result<Table>)
    ensures (r < 2 && |matchups| <= r) || (r >= 2 && |matchups| < r) ==> res == Err(IndexError)
  {
    var generated :- Generated(r, matchups);
    MergeRoundOf(year, currentYear, generated, season)
  }

  /** The back half of `round_pipeline`, from the merged round on. */
  function Prepared(all: Table, r: nat, nullDrops: seq<Col>,
                    toNumber: map<Value, Value>, toText: map<Value, Value>, scaler: Scaler): (res: Result<RoundOut>)
    ensures res.Ok? ==> Summary(all, r) == Ok(res.value.school)
    ensures res.Ok? ==> |res.value.all.rows| == |res.value.x.rows| == |all.rows|
    ensures res.Ok? ==> res.value.x == ScaleFeatures(res.value.all, scaler)
  {
    var school :- Summary(all, r);
    var dropped :- Drop(all, SchoolTeams + nullDrops);
    var f :- FeaturePipeline(dropped, toNumber, toText, scaler);
    Ok(RoundOut(f.frame, f.x, school))
  }

  /** `round_pipeline`: the round's matchups with integer seeds, cleaned
      and merged with the season data; the team names with the round
      number kept as its summary; names and `nullDrops` dropped before
      feature engineering. */
  function RoundPipeline(year: int, currentYear: int, r: nat, matchups: seq<Table>, season: Table, nullDrops: seq<Col>,
                         toNumber: map<Value, Value>, toText: map<Value, Value>, scaler: Scaler): (res: Result<RoundOut>)
    ensures res.Ok? ==> var m := MergedRound(year, currentYear, r, matchups, season);
      && m.Ok? && Summary(m.value, r) == Ok(res.value.school)
      && |res.value.all.rows| == |res.value.x.rows| == |m.value.rows|
      && res.value.x == ScaleFeatures(res.value.all, scaler)
    ensures (r < 2 && |matchups| <= r) || (r >= 2 && |matchups| < r) ==> res == Err(IndexError)
  {
    var all :- MergedRound(year, currentYear, r, matchups, season);
    Prepared(all, r, nullDrops, toNumber, toText, scaler)
  }

  /** A generated round holds only `Seed`, `Team`, `Seed.1` and `Team.1`,
      so when the bracket's year is not the calendar year the name halving
      of the cleaning step finds no `Round` and raises KeyError. */
  lemma PastYearGeneratedRoundFails(year: int, currentYear: int, r: nat, matchups: seq<Table>, season: Table)
    requires year != currentYear && r >= 2 && Generated(r, matchups).Ok?
    ensures MergedRound(year, currentYear, r, matchups, season).Err?
    ensures IntSeeds(Generated(r, matchups).value).Ok? ==>
      MergedRound(year, currentYear, r, matchups, season) == Err(KeyError("Round"))
  {
    var g := Generated(r, matchups).value;
    assert g.cols == RoundCols;
    assert RoundCol !in g.cols;
  }

  /** The cleaning and merging of one given round of matchups. */
  function MergeRoundOf(year: int, currentYear: int, g: Table, season: Table): Result<Table> {
    var seeded :- IntSeeds(g);
    var cleaned :- CleanTourneyData(year, currentYear, seeded, season);
    MergeTourneyGames(cleaned, season)
  }

  // ---------------------------------------------------------------------------
  // bracket_pipeline

  /** What the bracket is generated from besides the two scraped rounds:
      the bracket's year, the calendar year the program runs in, the
      year's cleaned season statistics, the labels dropped
      before prediction, the round-name tables, the fitted scaler and the
      classifier's predictions. */
  datatype Env = Env(year: int, currentYear: int, season: Table, nullDrops: seq<Col>,
                     toNumber: map<Value, Value>, toText: map<Value, Value>,
                     scaler: Scaler, predict: Table -> seq<Bit>)

  /** The two lists the loop keeps: matchups for the next prediction and the
      summaries of the games, one per round. */
  datatype State = State(matchups: seq<Table>, rounds: seq<Table>)

  /** Both lists start as `[play_in, first_round]`. */
  function Init(playin: Table, first: Table): State {
    State([playin, first], [playin, first])
  }

  /** `lst[r] = t` for the play-in and first round, `lst.append(t)` after. */
  function Store(s: seq<Table>, r: nat, t: Table): Result<seq<Table>> {
    if r >= 2 then Ok(s + [t])
    else if r < |s| then Ok(s[r := t])
    else Err(IndexError)
  }

  /** `school['Underdog_Upset'] = model.predict(x)`: one prediction per game,
      a length mismatch raising ValueError. */
  function Predicted(school: Table, preds: seq<Bit>): (r: Result<Table>)
    ensures r.Ok? <==> |preds| == |school.rows|
    ensures r.Err? ==> r.error == ValueError
    ensures r.Ok? ==> UpsetCol in r.value.cols && |r.value.rows| == |school.rows|
    ensures r.Ok? ==> forall i :: 0 <= i < |preds| ==> Get(r.value.rows[i], UpsetCol) == Int(preds[i])
    ensures r.Ok? ==> forall i, c :: 0 <= i < |preds| && c != UpsetCol ==> Get(r.value.rows[i], c) == Get(school.rows[i], c)
  {
    if |preds| == |school.rows| then Ok(Assign(school, UpsetCol, BitCells(preds))) else Err(ValueError)
  }

  /** Round `r` generated, predicted and cleaned from the stored matchups. */
  function Played(st: State, r: nat, env: Env): Result<RoundData> {
    var o :- RoundPipeline(env.year, env.currentYear, r, st.matchups, env.season, env.nullDrops, env.toNumber, env.toText, env.scaler);
    var school :- Predicted(o.school, env.predict(o.x));
    CleanCurrRoundData(o.all, o.x, school)
  }

  /** How a played round is kept: stored in slot `r`, and after the
      play-in the play-in winners written into the first round, which both
      lists still hold as one shared frame. */
  function Stored(st: State, r: nat, d: RoundData): (res: Result<State>)
    ensures |st.matchups| == Max(2, r) && |st.rounds| == Max(2, r) ==> (res.Ok? ==>
      |res.value.matchups| == Max(2, r + 1) && |res.value.rounds| == Max(2, r + 1))
    ensures res.Ok? && r >= 1 && |st.matchups| == Max(2, r) && |st.rounds| == Max(2, r) ==> (
      && r < |res.value.matchups| && res.value.matchups[r] == d.next
      && r < |res.value.rounds| && res.value.rounds[r] == d.summary)
    ensures res.Ok? ==> forall j :: 0 <= j < |st.matchups| && j != r && (r != 0 || j != 1) ==>
      j < |res.value.matchups| && res.value.matchups[j] == st.matchups[j]
    ensures res.Ok? ==> forall j :: 0 <= j < |st.rounds| && j != r && (r != 0 || j != 1) ==>
      j < |res.value.rounds| && res.value.rounds[j] == st.rounds[j]
    ensures r == 0 && |st.matchups| == 2 && |st.rounds| == 2 ==> (
      && (res.Ok? <==> FillPlayin(d.next, st.matchups[1]).Ok?)
      && (res.Ok? ==> var filled := FillPlayin(d.next, st.matchups[1]).value;
            res.value == State([d.next, filled], [d.summary, filled])))
  {
    var ms :- Store(st.matchups, r, d.next);
    var rs :- Store(st.rounds, r, d.summary);
    if r != 0 then Ok(State(ms, rs))
    else if |ms| < 2 || |rs| < 2 then Err(IndexError)
    else
      var filled :- FillPlayin(ms[0], ms[1]);
      Ok(State(ms[1 := filled], rs[1 := filled]))
  }

  /** A way of playing round `r` from the stored lists. */
  type Play = (State, nat) -> Result<RoundData>

  /** Rounds played by the pipeline of this module. */
  function Playing(env: Env): Play {
    (st: State, r: nat) => Played(st, r, env)
  }

  /** One pass of the loop: the round is played, then stored. */
  function Step(st: State, r: nat, play: Play): Result<State> {
    var d :- play(st, r);
    Stored(st, r, d)
  }

  /** The lists after the first `k` rounds; the first failing round ends the run. */
  function Run(init: State, k: nat, play: Play): Result<State> {
    if k == 0 then Ok(init)
    else
      var st :- Run(init, k - 1, play);
      Step(st, k - 1, play)
  }

  /** Play-in, first round, and the five rounds to the final. */
  const RoundCount: nat := 7

  /** The bracket the loop produces, formatted and given its winners. */
  function Bracket(playin: Table, first: Table, env: Env): Result<Table> {
    var st :- Run(Init(playin, first), RoundCount, Playing(env));
    var b :- CleanBracket(st.matchups, st.rounds, env.toNumber, env.toText);
    CreateBracketWinners(b)
  }

  /** A failed round fails every longer run the same way. */
  lemma {:induction false} RunStops(init: State, k: nat, m: nat, play: Play)
    requires k <= m && Run(init, k, play).Err?
    ensures Run(init, m, play) == Run(init, k, play)
    decreases m
  {
    if m > k {
      RunStops(init, k, m - 1, play);
    }
  }

  /** A run that gets through `k` rounds got through every shorter one. */
  lemma RunPrefix(init: State, k: nat, m: nat, play: Play)
    requires k <= m && Run(init, m, play).Ok?
    ensures Run(init, k, play).Ok?
  {
    if Run(init, k, play).Err? {
      RunStops(init, k, m, play);
    }
  }

  /** `bracket_pipeline`: seven rounds played in order, then the bracket
      formatted from both lists. */
  method BracketPipeline(playin: Table, first: Table, env: Env) returns (res: Result<Table>)
    ensures res == Bracket(playin, first, env)
    ensures res.Ok? ==> Run(Init(playin, first), RoundCount, Playing(env)).Ok?
    ensures res.Ok? ==> var st := Run(Init(playin, first), RoundCount, Playing(env)).value;
      |res.value.rows| == Max(RowTotal(st.matchups), RowTotal(st.rounds))
  {
    var run := RunRounds(Init(playin, first), RoundCount, Playing(env));
    if run.Err? {
      return Err(run.error);
    }
    var st := run.value;
    var b := CleanBracket(st.matchups, st.rounds, env.toNumber, env.toText);
    if b.Err? {
      return Err(b.error);
    }
    res := CreateBracketWinners(b.value);
  }

  /** The `for curr_round in range(7)` loop: one step per round, leaving
      at the first failing round. */
  method RunRounds(init: State, k: nat, play: Play) returns (res: Result<State>)
    ensures res == Run(init, k, play)
  {
    var st := init;
    for r := 0 to k
      invariant Run(init, r, play) == Ok(st)
    {
      var next := Step(st, r, play);
      if next.Err? {
        RunStops(init, r + 1, k, play);
        return Err(next.error);
      }
      st := next.value;
    }
    res := Ok(st);
  }

  /** Both lists hold two frames at the start and one per round from the
      third round on. */
  lemma {:induction false} RunShape(init: State, k: nat, play: Play)
    requires |init.matchups| == 2 && |init.rounds| == 2 && Run(init, k, play).Ok?
    ensures |Run(init, k, play).value.matchups| == Max(2, k)
    ensures |Run(init, k, play).value.rounds| == Max(2, k)
  {
    if k > 0 {
      RunPrefix(init, k - 1, k, play);
      RunShape(init, k - 1, play);
    }
  }

  /** Slot `j` is final once round `j` has been stored: no later round
      rewrites it (slot 0 after the play-in, slot 1 after the first round). */
  lemma {:induction false} RunSettles(init: State, k: nat, j: nat, play: Play)
    requires |init.matchups| == 2 && |init.rounds| == 2 && Run(init, k, play).Ok? && j < k
    ensures Run(init, j + 1, play).Ok?
    ensures j < |Run(init, j + 1, play).value.matchups| && j < |Run(init, k, play).value.matchups|
    ensures Run(init, k, play).value.matchups[j] == Run(init, j + 1, play).value.matchups[j]
    ensures j < |Run(init, j + 1, play).value.rounds| && j < |Run(init, k, play).value.rounds|
    ensures Run(init, k, play).value.rounds[j] == Run(init, j + 1, play).value.rounds[j]
  {
    RunPrefix(init, j + 1, k, play);
    RunShape(init, j + 1, play);
    RunShape(init, k, play);
    if k > j + 1 {
      RunPrefix(init, k - 1, k, play);
      RunSettles(init, k - 1, j, play);
      LaterStepKeeps(init, k, j, play);
    }
  }

  /** A round from 1 on leaves every earlier slot alone. */
  lemma LaterStepKeeps(init: State, k: nat, j: nat, play: Play)
    requires |init.matchups| == 2 && |init.rounds| == 2 && Run(init, k, play).Ok? && j + 1 < k
    ensures Run(init, k - 1, play).Ok?
    ensures j < |Run(init, k - 1, play).value.matchups| && j < |Run(init, k, play).value.matchups|
    ensures Run(init, k, play).value.matchups[j] == Run(init, k - 1, play).value.matchups[j]
    ensures j < |Run(init, k - 1, play).value.rounds| && j < |Run(init, k, play).value.rounds|
    ensures Run(init, k, play).value.rounds[j] == Run(init, k - 1, play).value.rounds[j]
  {
    RunPrefix(init, k - 1, k, play);
    RunShape(init, k - 1, play);
    RunShape(init, k, play);
    var st := Run(init, k - 1, play).value;
    assert Run(init, k, play) == Stored(st, k - 1, play(st, k - 1).value);
  }

  /** Round `r` stores its matchups and summary in slot `r` (rounds 1 on). */
  lemma RoundStored(init: State, r: nat, play: Play)
    requires |init.matchups| == 2 && |init.rounds| == 2 && r >= 1 && Run(init, r + 1, play).Ok?
    ensures Run(init, r, play).Ok? && play(Run(init, r, play).value, r).Ok?
    ensures var d := play(Run(init, r, play).value, r).value;
      var st := Run(init, r + 1, play).value;
      && r < |st.matchups| && st.matchups[r] == d.next
      && r < |st.rounds| && st.rounds[r] == d.summary
  {
    RunPrefix(init, r, r + 1, play);
    RunShape(init, r, play);
  }

  /** After the play-in the play-in winners sit in the first round of both
      lists, and the play-in slot holds its cleaned predictions. */
  lemma PlayinStored(playin: Table, first: Table, play: Play)
    requires Run(Init(playin, first), 1, play).Ok?
    ensures play(Init(playin, first), 0).Ok?
    ensures var d := play(Init(playin, first), 0).value;
      var st := Run(Init(playin, first), 1, play).value;
      && FillPlayin(d.next, first).Ok?
      && st.matchups == [d.next, FillPlayin(d.next, first).value]
      && st.rounds == [d.summary, FillPlayin(d.next, first).value]
  {
  }

  /** From the third round on, a round's games are generated from the
      matchups the round before it stored, which the finished bracket
      still holds. */
  lemma GeneratedFromPrevious(init: State, k: nat, r: nat, play: Play)
    requires |init.matchups| == 2 && |init.rounds| == 2 && Run(init, k, play).Ok? && 2 <= r < k
    ensures Run(init, r, play).Ok?
    ensures r - 1 < |Run(init, k, play).value.matchups|
    ensures Generated(r, Run(init, r, play).value.matchups) == CreateBracketRound(Run(init, k, play).value.matchups[r - 1])
  {
    RunPrefix(init, r, k, play);
    RunShape(init, r, play);
    RunSettles(init, k, r - 1, play);
    RunSettles(init, r, r - 1, play);
  }

  // ---------------------------------------------------------------------------
  // hist_tournament_games and dataset_pipeline

  /** One year's scraped tournament games and cleaned season statistics. */
  datatype Season = Season(year: int, games: Table, stats: Table)

  /** `hist_tournament_games`: a year without tournament games contributes
      an empty frame; otherwise its games are cleaned and merged. */
  function HistTournamentGames(s: Season, currentYear: int): (r: Result<Table>)
    ensures IsEmpty(s.games) ==> r == Ok(Empty())
    ensures !IsEmpty(s.games) && s.year != currentYear && RoundCol !in s.games.cols ==> r == Err(KeyError("Round"))
  {
    if IsEmpty(s.games) then Ok(Empty())
    else
      var clean :- CleanTourneyData(s.year, currentYear, s.games, s.stats);
      MergeTourneyGames(clean, s.stats)
  }

  /** A way of building one year's frame. */
  type Load = Season -> Result<Table>

  /** Years loaded by `hist_tournament_games`. */
  function History(currentYear: int): Load {
    s => HistTournamentGames(s, currentYear)
  }

  /** Every year's frame, in order; the first failing year ends the list. */
  function YearTables(ss: seq<Season>, load: Load): (r: Result<seq<Table>>)
    ensures r.Ok? <==> forall k :: 0 <= k < |ss| ==> load(ss[k]).Ok?
    ensures r.Ok? ==> |r.value| == |ss| && forall k :: 0 <= k < |ss| ==> load(ss[k]) == Ok(r.value[k])
  {
    if |ss| == 0 then Ok([])
    else
      var front := ss[..|ss| - 1];
      assert forall k :: 0 <= k < |front| ==> front[k] == ss[k];
      var ts :- YearTables(front, load);
      var t :- load(ss[|ss| - 1]);
      Ok(ts + [t])
  }

  /** The complete dataset: every year's frame stacked in year order. */
  function Dataset(ss: seq<Season>, load: Load): Result<Table> {
    var ts :- YearTables(ss, load);
    Ok(ConcatAll(ts))
  }

  /** `dataset_pipeline`: the loop that concatenates each year onto the
      frame built so far. */
  method DatasetPipeline(ss: seq<Season>, currentYear: int) returns (res: Result<Table>)
    ensures res == Dataset(ss, History(currentYear))
  {
    var load := History(currentYear);
    var all := Empty();
    for k := 0 to |ss|
      invariant YearTables(ss[..k], load).Ok?
      invariant all == ConcatAll(YearTables(ss[..k], load).value)
    {
      assert ss[..k + 1][..k] == ss[..k];
      var t := HistTournamentGames(ss[k], currentYear);
      if t.Err? {
        YearTablesStop(ss, k + 1, load);
        return Err(t.error);
      }
      all := ConcatRows(all, t.value);
    }
    assert ss[..|ss|] == ss;
    res := Ok(all);
  }

  /** Once a prefix of the years fails, the whole list fails the same way. */
  lemma {:induction false} YearTablesStop(ss: seq<Season>, k: nat, load: Load)
    requires k <= |ss| && YearTables(ss[..k], load).Err?
    ensures YearTables(ss, load) == YearTables(ss[..k], load)
    decreases |ss| - k
  {
    if k < |ss| {
      var front := ss[..|ss| - 1];
      assert front[..k] == ss[..k];
      YearTablesStop(front, k, load);
    } else {
      assert ss[..k] == ss;
    }
  }

  /** Row `j` of year `k` sits behind the rows of every earlier year. */
  lemma DatasetRow(ss: seq<Season>, load: Load, k: nat, j: nat)
    requires Dataset(ss, load).Ok? && k < |ss|
    requires j < |load(ss[k]).value.rows|
    ensures var ts := YearTables(ss, load).value;
      var n := RowTotal(ts[..k]) + j;
      n < |Dataset(ss, load).value.rows| && Dataset(ss, load).value.rows[n] == load(ss[k]).value.rows[j]
  {
    var ts := YearTables(ss, load).value;
    assert Dataset(ss, load).value == ConcatAll(ts);
    assert ts[k] == load(ss[k]).value;
    ConcatAllRow(ts, k, j);
  }

  /** A year without tournament games leaves the dataset's rows as they were. */
  lemma EmptyYearAddsNothing(ss: seq<Season>, s: Season, currentYear: int)
    requires Dataset(ss, History(currentYear)).Ok? && IsEmpty(s.games)
    ensures Dataset(ss + [s], History(currentYear)).Ok?
    ensures Dataset(ss + [s], History(currentYear)).value.rows == Dataset(ss, History(currentYear)).value.rows
  {
    assert (ss + [s])[..|ss|] == ss;
  }
}
