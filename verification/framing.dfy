/** Turning scraped games into favorite/underdog pairs. A game row carries
    `Seed`, `Team`, `Seed.1`, `Team.1` and, for finished games, `Score`
    and `Score.1`. The strictly lower seed is the favorite; on equal seeds
    the team with the strictly better regular-season W-L% is, and a tie in
    record makes the `Team.1` side the favorite. Each side's cells are
    packed into a numpy array, so one text cell turns every number in that
    array into text. Two revisions of the framing exist and both are
    modelled here. */
module Framing {

  import opened Results
  import opened Tables

  /** One team's side of a game. `score` is present when the table has
      both score columns. */
  datatype Entry = Entry(seed: Value, team: Value, score: Option<Value>)

  datatype Split = Split(fav: Entry, und: Entry)

  /** The arrays stored under 'Favorite' and 'Underdog'. */
  datatype Framed = Framed(favorite: seq<seq<Value>>, underdog: seq<seq<Value>>)

  const WinLossCol: Col := Name("W-L%")

  const GameCols: seq<Col> := [SeedCol, TeamCol, Seed1Col, Team1Col]

  function Cells(e: Entry): (r: seq<Value>)
    ensures |r| == if e.score.Some? then 3 else 2
    ensures r[0] == e.seed && r[1] == e.team
    ensures e.score.Some? ==> r[2] == e.score.value
  {
    [e.seed, e.team] + (if e.score.Some? then [e.score.value] else [])
  }

  predicate Scored(cols: seq<Col>) {
    ScoreCol in cols && Score1Col in cols
  }

  /** The `Seed`/`Team`/`Score` side of a game. */
  function Home(cols: seq<Col>, row: Row): Entry {
    Entry(Get(row, SeedCol), Get(row, TeamCol), if Scored(cols) then Some(Get(row, ScoreCol)) else None)
  }

  /** The `Seed.1`/`Team.1`/`Score.1` side of a game. */
  function Away(cols: seq<Col>, row: Row): Entry {
    Entry(Get(row, Seed1Col), Get(row, Team1Col), if Scored(cols) then Some(Get(row, Score1Col)) else None)
  }

  /** Season rows whose School equals `team`. */
  function Matches(season: Table, team: Value): seq<Row> {
    FilterRows(season.rows, (r: Row) => PyEq(Get(r, SchoolCol), team))
  }

  /** `float(season_df[season_df['School'] == team]['W-L%'])`: the Series
      must hold exactly one value, else TypeError. A missing record is NaN,
      written `None`. */
  function WinPct(season: Table, team: Value): (r: Result<Option<real>>)
    ensures r.Ok? ==> SchoolCol in season.cols && WinLossCol in season.cols
    ensures r.Ok? ==> |Matches(season, team)| == 1
    ensures SchoolCol in season.cols && WinLossCol in season.cols && |Matches(season, team)| != 1 ==> r == Err(TypeError)
  {
    var _ :- Need(season.cols, [SchoolCol, WinLossCol]);
    var m := Matches(season, team);
    if |m| != 1 then Err(TypeError)
    else match Get(m[0], WinLossCol)
      case Int(i) => Ok(Some(i as real))
      case Num(x) => Ok(Some(x))
      case Null => Ok(None)
      case Str(_) => Err(ValueError)
  }

  /** `p > q` on floats; NaN compares false. */
  predicate Better(p: Option<real>, q: Option<real>) {
    p.Some? && q.Some? && p.value > q.value
  }

  /** Framing of one game, newer revision: `Seed.1 < Seed` is tested first,
      then `Seed.1 > Seed`, and otherwise the records decide. */
  function FrameRow(cols: seq<Col>, season: Table, row: Row): (r: Result<Split>)
    ensures r.Ok? ==> forall c :: c in GameCols ==> c in cols
    ensures (exists c :: c in GameCols && c !in cols) ==> r.Err? && r.error.KeyError?
    ensures r.Ok? ==> r.value.fav.score.Some? == r.value.und.score.Some? == Scored(cols)
    ensures r.Ok? ==> r.value in {Split(Home(cols, row), Away(cols, row)), Split(Away(cols, row), Home(cols, row))}
  {
    var _ :- Need(cols, GameCols);
    var a, b := Home(cols, row), Away(cols, row);
    var lt :- Lt(b.seed, a.seed);
    if lt then Ok(Split(b, a))
    else
      var gt :- Gt(b.seed, a.seed);
      if gt then Ok(Split(a, b))
      else
        var p :- WinPct(season, a.team);
        var q :- WinPct(season, b.team);
        Ok(if Better(p, q) then Split(a, b) else Split(b, a))
  }

  /** With integer seeds the strictly lower seed is the favorite, and on
      equal seeds `Team` is the favorite exactly when its W-L% is strictly
      greater; only the records can fail then. */
  lemma SeedsDecide(cols: seq<Col>, season: Table, row: Row)
    requires forall c :: c in GameCols ==> c in cols
    requires Get(row, SeedCol).Int? && Get(row, Seed1Col).Int?
    ensures var r := FrameRow(cols, season, row);
      var s, s1 := Get(row, SeedCol).i, Get(row, Seed1Col).i;
      && (s1 < s ==> r == Ok(Split(Away(cols, row), Home(cols, row))))
      && (s1 > s ==> r == Ok(Split(Home(cols, row), Away(cols, row))))
      && (s1 == s ==>
            var p, q := WinPct(season, Get(row, TeamCol)), WinPct(season, Get(row, Team1Col));
            (r.Ok? <==> p.Ok? && q.Ok?)
            && (r.Ok? ==> r.value == if Better(p.value, q.value) then Split(Home(cols, row), Away(cols, row))
                                     else Split(Away(cols, row), Home(cols, row))))
  {}

  /** Under integer seeds the favorite's seed is never the larger one. */
  lemma FavoriteSeedNotWorse(cols: seq<Col>, season: Table, row: Row)
    requires Get(row, SeedCol).Int? && Get(row, Seed1Col).Int?
    ensures var r := FrameRow(cols, season, row);
      r.Ok? ==> r.value.fav.seed.Int? && r.value.und.seed.Int? && r.value.fav.seed.i <= r.value.und.seed.i
  {}

  function FrameRows(cols: seq<Col>, season: Table, rows: seq<Row>): (r: Result<seq<Split>>)
    ensures r.Ok? <==> forall i :: 0 <= i < |rows| ==> FrameRow(cols, season, rows[i]).Ok?
    ensures r.Ok? ==> |r.value| == |rows| && forall i :: 0 <= i < |rows| ==> FrameRow(cols, season, rows[i]) == Ok(r.value[i])
    ensures r.Err? ==> exists i :: 0 <= i < |rows| && FrameRow(cols, season, rows[i]) == Err(r.error)
  {
    if |rows| == 0 then Ok([])
    else
      var s :- FrameRow(cols, season, rows[0]);
      var rest :- FrameRows(cols, season, rows[1..]);
      Ok([s] + rest)
  }

  function FavCells(ss: seq<Split>): (r: seq<seq<Value>>)
    ensures |r| == |ss| && forall i :: 0 <= i < |ss| ==> r[i] == Cells(ss[i].fav)
  {
    seq(|ss|, i requires 0 <= i < |ss| => Cells(ss[i].fav))
  }

  function UndCells(ss: seq<Split>): (r: seq<seq<Value>>)
    ensures |r| == |ss| && forall i :: 0 <= i < |ss| ==> r[i] == Cells(ss[i].und)
  {
    seq(|ss|, i requires 0 <= i < |ss| => Cells(ss[i].und))
  }

  function Pack(ss: seq<Split>): Framed {
    Framed(NumpyArray(FavCells(ss)), NumpyArray(UndCells(ss)))
  }

  /** `create_faves_underdogs`: one favorite and one underdog per game, in
      game order; each array row is a coerced copy of one side's cells, and
      the two sides of a game are exactly its two teams. */
  function Frame(mm: Table, season: Table): (r: Result<Framed>)
    ensures r.Ok? <==> forall i :: 0 <= i < |mm.rows| ==> FrameRow(mm.cols, season, mm.rows[i]).Ok?
    ensures r.Ok? ==> |r.value.favorite| == |mm.rows| && |r.value.underdog| == |mm.rows|
    ensures r.Ok? ==> forall i :: 0 <= i < |mm.rows| ==>
      var s := FrameRow(mm.cols, season, mm.rows[i]).value;
      && |r.value.favorite[i]| == |Cells(s.fav)| && |r.value.underdog[i]| == |Cells(s.und)|
      && {s.fav, s.und} == {Home(mm.cols, mm.rows[i]), Away(mm.cols, mm.rows[i])}
  {
    var ss :- FrameRows(mm.cols, season, mm.rows);
    Ok(Pack(ss))
  }

  /** The array cell of a favorite: the side's own cell, rendered as text
      when the array holds text and no missing cell. */
  lemma FavoriteCell(mm: Table, season: Table, i: nat, j: nat)
    requires Frame(mm, season).Ok? && i < |mm.rows|
    requires j < |Cells(FrameRow(mm.cols, season, mm.rows[i]).value.fav)|
    ensures var f := FavCells(FrameRows(mm.cols, season, mm.rows).value);
      Frame(mm, season).value.favorite[i][j] ==
        if !HasNull(f) && HasStr(f) then TextCell(f[i][j]) else f[i][j]
  {}

  // ---------------------------------------------------------------------------
  // Earlier revision: equality is tested first, then `Seed.1 > Seed`, and
  // scores are always read.

  const ScoredGameCols: seq<Col> := [SeedCol, TeamCol, ScoreCol, Seed1Col, Team1Col, Score1Col]

  /** The labels in the order the earlier revision reads them: the
      underdog's side is appended first, so when `Team` is the favorite the
      `.1` side is read before the plain one. */
  function ReadOrder(homeFavorite: bool): (r: seq<Col>)
    ensures forall c :: c in r <==> c in ScoredGameCols
  {
    if homeFavorite then [Seed1Col, Team1Col, Score1Col, SeedCol, TeamCol, ScoreCol] else ScoredGameCols
  }

  /** Framing of one game, earlier revision. The seeds are compared as
      plain Python values, so two missing seeds count as equal. On equal
      seeds the season's School column is read before the game's `Team`,
      and each team's record before the next label. */
  function FrameRowEarlier(cols: seq<Col>, season: Table, row: Row): (r: Result<Split>)
    ensures r.Ok? ==> forall c :: c in ScoredGameCols ==> c in cols
    ensures r.Ok? ==> r.value in {Split(Home(cols, row), Away(cols, row)), Split(Away(cols, row), Home(cols, row))}
  {
    var _ :- Need(cols, [Seed1Col, SeedCol]);
    var a, b := Home(cols, row), Away(cols, row);
    if ScalarEq(b.seed, a.seed) then
      var _ :- Need(season.cols, [SchoolCol]);
      var _ :- Need(cols, [TeamCol]);
      var p :- WinPct(season, a.team);
      var _ :- Need(cols, [Team1Col]);
      var q :- WinPct(season, b.team);
      var _ :- Need(cols, ReadOrder(Better(p, q)));
      Ok(if Better(p, q) then Split(a, b) else Split(b, a))
    else
      var gt :- Gt(b.seed, a.seed);
      var _ :- Need(cols, ReadOrder(gt));
      Ok(if gt then Split(a, b) else Split(b, a))
  }

  /** With `Seed.1 > Seed` and neither score label present, the first label
      the earlier revision misses is `Score.1`. */
  lemma EarlierReadsUnderdogFirst(cols: seq<Col>, season: Table, row: Row)
    requires SeedCol in cols && TeamCol in cols && Seed1Col in cols && Team1Col in cols
    requires ScoreCol !in cols && Score1Col !in cols
    requires Get(row, SeedCol).Int? && Get(row, Seed1Col).Int? && Get(row, Seed1Col).i > Get(row, SeedCol).i
    ensures FrameRowEarlier(cols, season, row) == Err(KeyError(Spell(Score1Col)))
  {
    var w := ReadOrder(true);
    assert w[1..][1..] == [Score1Col, SeedCol, TeamCol, ScoreCol];
    assert FirstMissing(cols, w[1..][1..]) == Some(Score1Col);
    assert FirstMissing(cols, w) == Some(Score1Col);
  }

  /** On equal seeds, two missing seeds included, the earlier revision
      lets the records decide: `Team` is the favorite exactly on a strictly
      better W-L%, and only the records can fail. */
  lemma EarlierEqualSeedsUseRecords(cols: seq<Col>, season: Table, row: Row)
    requires forall c :: c in ScoredGameCols ==> c in cols
    requires ScalarEq(Get(row, Seed1Col), Get(row, SeedCol))
    ensures var r := FrameRowEarlier(cols, season, row);
      var p, q := WinPct(season, Get(row, TeamCol)), WinPct(season, Get(row, Team1Col));
      && (r.Ok? <==> p.Ok? && q.Ok?)
      && (r.Ok? ==> r.value == if Better(p.value, q.value) then Split(Home(cols, row), Away(cols, row))
                               else Split(Away(cols, row), Home(cols, row)))
  {
    var r := FrameRowEarlier(cols, season, row);
    var p, q := WinPct(season, Get(row, TeamCol)), WinPct(season, Get(row, Team1Col));
    if p.Ok? {
      assert SchoolCol in season.cols;
    }
  }

  /** Two missing seeds are equal seeds: the records decide, where the
      element-wise comparison would have raised TypeError on `None > None`. */
  lemma EarlierMissingSeedsUseRecords(cols: seq<Col>, season: Table, row: Row)
    requires forall c :: c in ScoredGameCols ==> c in cols
    requires Get(row, SeedCol) == Null && Get(row, Seed1Col) == Null
    ensures var p, q := WinPct(season, Get(row, TeamCol)), WinPct(season, Get(row, Team1Col));
      p.Ok? && q.Ok? ==> FrameRowEarlier(cols, season, row).Ok?
    ensures !PyEq(Get(row, Seed1Col), Get(row, SeedCol)) && Gt(Get(row, Seed1Col), Get(row, SeedCol)) == Err(TypeError)
  {
    EarlierEqualSeedsUseRecords(cols, season, row);
  }

  /** On equal seeds a season table without School raises KeyError on
      School, even when the game lacks `Team` as well. */
  lemma EarlierReadsSchoolFirst(cols: seq<Col>, season: Table, row: Row)
    requires SeedCol in cols && Seed1Col in cols && SchoolCol !in season.cols
    requires ScalarEq(Get(row, Seed1Col), Get(row, SeedCol))
    ensures FrameRowEarlier(cols, season, row) == Err(KeyError(Spell(SchoolCol)))
  {
    assert FirstMissing(season.cols, [SchoolCol]) == Some(SchoolCol);
  }

  function FrameRowsEarlier(cols: seq<Col>, season: Table, rows: seq<Row>): (r: Result<seq<Split>>)
    ensures r.Ok? <==> forall i :: 0 <= i < |rows| ==> FrameRowEarlier(cols, season, rows[i]).Ok?
    ensures r.Ok? ==> |r.value| == |rows| && forall i :: 0 <= i < |rows| ==> FrameRowEarlier(cols, season, rows[i]) == Ok(r.value[i])
  {
    if |rows| == 0 then Ok([])
    else
      var s :- FrameRowEarlier(cols, season, rows[0]);
      var rest :- FrameRowsEarlier(cols, season, rows[1..]);
      Ok([s] + rest)
  }

  /** `teams_to_faves_underdogs`. */
  function FrameEarlier(mm: Table, season: Table): (r: Result<Framed>)
    ensures r.Ok? <==> forall i :: 0 <= i < |mm.rows| ==> FrameRowEarlier(mm.cols, season, mm.rows[i]).Ok?
    ensures r.Ok? ==> |r.value.favorite| == |mm.rows| && |r.value.underdog| == |mm.rows|
  {
    var ss :- FrameRowsEarlier(mm.cols, season, mm.rows);
    Ok(Pack(ss))
  }

  /** With `Seed.1 > Seed` the earlier revision makes `Team` the favorite;
      with `Seed.1 < Seed` it makes `Team.1` the favorite. */
  lemma EarlierSeedsDecide(cols: seq<Col>, season: Table, row: Row)
    requires forall c :: c in ScoredGameCols ==> c in cols
    requires Get(row, SeedCol).Int? && Get(row, Seed1Col).Int?
    ensures var r := FrameRowEarlier(cols, season, row);
      var s, s1 := Get(row, SeedCol).i, Get(row, Seed1Col).i;
      && (s1 > s ==> r == Ok(Split(Home(cols, row), Away(cols, row))))
      && (s1 < s ==> r == Ok(Split(Away(cols, row), Home(cols, row))))
  {}

  /** On one game with both score columns and numeric seeds, the revisions
      agree. */
  lemma RevisionsAgreeOnRow(cols: seq<Col>, season: Table, row: Row)
    requires forall c :: c in ScoredGameCols ==> c in cols
    requires AsReal(Get(row, SeedCol)).Some? && AsReal(Get(row, Seed1Col)).Some?
    ensures FrameRowEarlier(cols, season, row) == FrameRow(cols, season, row)
  {
    assert forall c :: c in GameCols ==> c in cols;
  }

  /** On tables with both score columns and numeric seeds, the earlier
      revision computes the same arrays as the newer one. */
  lemma {:induction false} RevisionsAgree(mm: Table, season: Table)
    requires forall c :: c in ScoredGameCols ==> c in mm.cols
    requires forall i :: 0 <= i < |mm.rows| ==> AsReal(Get(mm.rows[i], SeedCol)).Some? && AsReal(Get(mm.rows[i], Seed1Col)).Some?
    ensures FrameEarlier(mm, season) == Frame(mm, season)
  {
    RowsAgree(mm.cols, season, mm.rows);
  }

  lemma {:induction false} RowsAgree(cols: seq<Col>, season: Table, rows: seq<Row>)
    requires forall c :: c in ScoredGameCols ==> c in cols
    requires forall i :: 0 <= i < |rows| ==> AsReal(Get(rows[i], SeedCol)).Some? && AsReal(Get(rows[i], Seed1Col)).Some?
    ensures FrameRowsEarlier(cols, season, rows) == FrameRows(cols, season, rows)
    decreases |rows|
  {
    if |rows| > 0 {
      RevisionsAgreeOnRow(cols, season, rows[0]);
      RowsAgree(cols, season, rows[1..]);
    }
  }
}
