/** What the predictions decide: the next round's pairings, the winner of
    every game of the finished bracket, and the historical target label. */
module Outcomes {

  import opened Results
  import opened Text
  import opened Tables

  // ---------------------------------------------------------------------------
  // create_bracket_round

  /** `matchups.iloc[i, k]` on the frame `[Team, Team.1]`: position `k` must
      be an integer in `-2..1`. */
  function TeamAt(row: Row, k: Value): (r: Result<Value>)
    ensures r.Ok? <==> k.Int? && -2 <= k.i <= 1
    ensures r.Ok? ==> r.value == Get(row, if k.i % 2 == 0 then TeamCol else Team1Col)
  {
    match k
    case Int(p) =>
      if p == 0 || p == -2 then Ok(Get(row, TeamCol))
      else if p == 1 || p == -1 then Ok(Get(row, Team1Col))
      else Err(IndexError)
    case _ => Err(TypeError)
  }

  /** `[winner_seed, winner_team]` of one game: the seed is read from `Seed`
      when the upset flag equals 0 and from `Seed.1` otherwise; the team is
      read by the flag's value used as a column position. */
  function GameWinner(cols: seq<Col>, row: Row): (r: Result<seq<Value>>)
    ensures r.Ok? ==> |r.value| == 2
    ensures UpsetCol !in cols ==> r == Err(KeyError(Spell(UpsetCol)))
  {
    var _ :- Need(cols, [UpsetCol]);
    var u := Get(row, UpsetCol);
    var seed := if PyEq(u, Int(0)) then SeedCol else Seed1Col;
    var _ :- Need(cols, [seed]);
    var team :- TeamAt(row, u);
    Ok([Get(row, seed), team])
  }

  /** The side a 0/1 flag declares the winner: `Seed`/`Team` on 0,
      `Seed.1`/`Team.1` on 1. */
  function WinnerSide(row: Row, b: Bit): seq<Value> {
    if b == 0 then [Get(row, SeedCol), Get(row, TeamCol)] else [Get(row, Seed1Col), Get(row, Team1Col)]
  }

  /** On a 0/1 flag the winner is exactly the flagged side. */
  lemma GameWinnerFlag(cols: seq<Col>, row: Row, b: Bit)
    requires UpsetCol in cols && SeedCol in cols && Seed1Col in cols
    requires Get(row, UpsetCol) == Int(b)
    ensures GameWinner(cols, row) == Ok(WinnerSide(row, b))
  {}

  /** A flag outside the columns' positions raises IndexError, a flag that
      is not an integer TypeError. */
  lemma GameWinnerBadFlag(cols: seq<Col>, row: Row)
    requires UpsetCol in cols && SeedCol in cols && Seed1Col in cols
    ensures var u := Get(row, UpsetCol);
      && (u.Int? && (u.i < -2 || u.i > 1) ==> GameWinner(cols, row) == Err(IndexError))
      && (!u.Int? ==> GameWinner(cols, row) == Err(TypeError))
  {}

  function Winners(cols: seq<Col>, rows: seq<Row>): (r: Result<seq<seq<Value>>>)
    ensures r.Ok? <==> forall i :: 0 <= i < |rows| ==> GameWinner(cols, rows[i]).Ok?
    ensures r.Ok? ==> |r.value| == |rows|
    ensures r.Ok? ==> forall i :: 0 <= i < |rows| ==> GameWinner(cols, rows[i]) == Ok(r.value[i])
  {
    if |rows| == 0 then Ok([])
    else
      var w :- GameWinner(cols, rows[0]);
      var rest :- Winners(cols, rows[1..]);
      Ok([w] + rest)
  }

  const RoundCols: seq<Col> := [SeedCol, TeamCol, Seed1Col, Team1Col]

  /** A next-round game between the winners `w` and `l`. */
  function MatchupRow(w: seq<Value>, l: seq<Value>): Row
    requires |w| == 2 && |l| == 2
  {
    map[SeedCol := w[0], TeamCol := w[1], Seed1Col := l[0], Team1Col := l[1]]
  }

  /** `reshape(n // 2, 4)` of the `n x 2` winners array: winners `2j` and
      `2j + 1` meet in row `j`. */
  function PairUp(arr: seq<seq<Value>>): (r: seq<Row>)
    requires |arr| % 2 == 0 && forall i :: 0 <= i < |arr| ==> |arr[i]| == 2
    ensures 2 * |r| == |arr|
    ensures forall j :: 0 <= j < |r| ==> r[j] == MatchupRow(arr[2 * j], arr[2 * j + 1])
    decreases |arr|
  {
    if |arr| == 0 then []
    else
      var rest := PairUp(arr[2..]);
      var r := [MatchupRow(arr[0], arr[1])] + rest;
      assert forall j :: 1 <= j < |r| ==> r[j] == rest[j - 1] && arr[2 * j] == arr[2..][2 * (j - 1)];
      r
  }

  /** `create_bracket_round`: the previous round must have `Team` and
      `Team.1`; every game yields its winner, and an odd number of games
      cannot be reshaped. */
  function CreateBracketRound(t: Table): (r: Result<Table>)
    ensures r.Ok? <==> (TeamCol in t.cols && Team1Col in t.cols
      && Winners(t.cols, t.rows).Ok? && |t.rows| % 2 == 0)
    ensures TeamCol in t.cols && Team1Col in t.cols && Winners(t.cols, t.rows).Ok? && |t.rows| % 2 == 1 ==>
      r == Err(ValueError)
    ensures r.Ok? ==> r.value.cols == RoundCols && 2 * |r.value.rows| == |t.rows|
  {
    var _ :- Need(t.cols, [TeamCol, Team1Col]);
    var ws :- Winners(t.cols, t.rows);
    if |ws| % 2 != 0 then Err(ValueError)
    else Ok(Table(RoundCols, PairUp(NumpyArray(ws))))
  }

  /** A winners' cell as the numpy array holds it. */
  function Coerced(ws: seq<seq<Value>>, i: nat, k: nat): Value
    requires i < |ws| && k < |ws[i]|
  {
    if !HasNull(ws) && HasStr(ws) then TextCell(ws[i][k]) else ws[i][k]
  }

  /** Row `j` of the next round pairs the winners of games `2j` and
      `2j + 1`, in that order, as the winners' array holds them. */
  lemma NextRoundRow(t: Table, j: nat)
    requires CreateBracketRound(t).Ok? && j < |CreateBracketRound(t).value.rows|
    ensures var ws := Winners(t.cols, t.rows).value;
      var row := CreateBracketRound(t).value.rows[j];
      && Get(row, SeedCol) == Coerced(ws, 2 * j, 0)
      && Get(row, TeamCol) == Coerced(ws, 2 * j, 1)
      && Get(row, Seed1Col) == Coerced(ws, 2 * j + 1, 0)
      && Get(row, Team1Col) == Coerced(ws, 2 * j + 1, 1)
  {
    var ws := Winners(t.cols, t.rows).value;
    var arr := NumpyArray(ws);
    assert CreateBracketRound(t).value.rows[j] == MatchupRow(arr[2 * j], arr[2 * j + 1]);
  }

  /** A seed cell `astype(int)` accepts: an integer, or text such as the
      decimal strings a numpy text array holds. */
  predicate SeedCell(v: Value) {
    (v.Int? || v.Str?) && CastInt(v).Ok?
  }

  /** The seeds of every generated round are numpy text, and qualify. */
  lemma TextSeedIsSeed(n: int)
    ensures SeedCell(Str(IntText(n)))
    ensures CastInt(Str(IntText(n))) == Ok(Int(n))
  {
    ParseIntText(n);
  }

  /** Casting a cell the winners' array coerced gives the cast of the cell. */
  lemma CastCoerced(v: Value)
    ensures CastInt(TextCell(v)) == CastInt(v)
  {
    if v.Int? {
      CastIntText(v);
    }
  }

  /** A round with 0/1 flags, seeds an integer cast accepts and text team
      names. */
  predicate PlainRound(t: Table) {
    && UpsetCol in t.cols && SeedCol in t.cols && Seed1Col in t.cols && TeamCol in t.cols && Team1Col in t.cols
    && forall i :: 0 <= i < |t.rows| ==>
      && (Get(t.rows[i], UpsetCol) == Int(0) || Get(t.rows[i], UpsetCol) == Int(1))
      && SeedCell(Get(t.rows[i], SeedCol)) && SeedCell(Get(t.rows[i], Seed1Col))
      && Get(t.rows[i], TeamCol).Str? && Get(t.rows[i], Team1Col).Str?
  }

  function Flag(t: Table, i: nat): Bit
    requires PlainRound(t) && i < |t.rows|
  {
    if Get(t.rows[i], UpsetCol) == Int(0) then 0 else 1
  }

  /** On a plain round of even size, game `2j`'s winner meets game
      `2j + 1`'s winner in row `j`: the names are kept, and the seeds, which
      the text array may have turned into decimal strings, cast to the same
      integers as the winners' seeds. */
  lemma NextRoundOfPlainRound(t: Table, j: nat)
    requires PlainRound(t) && |t.rows| % 2 == 0 && j < |t.rows| / 2
    ensures CreateBracketRound(t).Ok?
    ensures var row := CreateBracketRound(t).value.rows[j];
      var w, l := WinnerSide(t.rows[2 * j], Flag(t, 2 * j)), WinnerSide(t.rows[2 * j + 1], Flag(t, 2 * j + 1));
      && Get(row, TeamCol) == w[1] && Get(row, Team1Col) == l[1]
      && CastInt(Get(row, SeedCol)) == CastInt(w[0]) && CastInt(w[0]).Ok?
      && CastInt(Get(row, Seed1Col)) == CastInt(l[0]) && CastInt(l[0]).Ok?
  {
    PlainWinners(t);
    var ws := Winners(t.cols, t.rows).value;
    assert ws[2 * j] == WinnerSide(t.rows[2 * j], Flag(t, 2 * j));
    assert ws[2 * j + 1] == WinnerSide(t.rows[2 * j + 1], Flag(t, 2 * j + 1));
    NextRoundRow(t, j);
    CastCoerced(ws[2 * j][0]);
    CastCoerced(ws[2 * j + 1][0]);
  }

  /** Every game of a plain round has its flagged side as winner, and the
      winners' cells hold no null and at least one name. */
  lemma PlainWinners(t: Table)
    requires PlainRound(t)
    ensures Winners(t.cols, t.rows).Ok?
    ensures var ws := Winners(t.cols, t.rows).value;
      && (forall i :: 0 <= i < |t.rows| ==> ws[i] == WinnerSide(t.rows[i], Flag(t, i)))
      && !HasNull(ws) && (|t.rows| > 0 ==> HasStr(ws))
  {
    forall i | 0 <= i < |t.rows|
      ensures GameWinner(t.cols, t.rows[i]) == Ok(WinnerSide(t.rows[i], Flag(t, i)))
    {
      GameWinnerFlag(t.cols, t.rows[i], Flag(t, i));
    }
    var ws := Winners(t.cols, t.rows).value;
    assert !HasNull(ws) by {
      forall i, k | 0 <= i < |ws| && 0 <= k < |ws[i]|
        ensures ws[i][k] != Null
      {
        assert ws[i] == WinnerSide(t.rows[i], Flag(t, i));
      }
    }
    if |t.rows| > 0 {
      assert ws[0][1].Str?;
    }
  }

  /** An odd number of games makes the reshape fail. */
  lemma OddRoundFails(t: Table)
    requires PlainRound(t) && |t.rows| % 2 == 1
    ensures CreateBracketRound(t) == Err(ValueError)
  {
    forall i | 0 <= i < |t.rows|
      ensures GameWinner(t.cols, t.rows[i]).Ok?
    {
      GameWinnerFlag(t.cols, t.rows[i], Flag(t, i));
    }
  }

  // ---------------------------------------------------------------------------
  // create_bracket_winners

  const WinnerCol: Col := Name("Winner")

  /** `Team_Underdog` when the flag equals 1, otherwise `Team_Favorite`. */
  function WinnerCell(cols: seq<Col>, row: Row): (r: Result<Value>)
    ensures UpsetCol !in cols ==> r == Err(KeyError(Spell(UpsetCol)))
    ensures r.Ok? ==> r.value in {Get(row, Und("Team")), Get(row, Fav("Team"))}
  {
    var _ :- Need(cols, [UpsetCol]);
    var c := if PyEq(Get(row, UpsetCol), Int(1)) then Und("Team") else Fav("Team");
    var _ :- Need(cols, [c]);
    Ok(Get(row, c))
  }

  function WinnerCells(cols: seq<Col>, rows: seq<Row>): (r: Result<seq<Value>>)
    ensures r.Ok? <==> forall i :: 0 <= i < |rows| ==> WinnerCell(cols, rows[i]).Ok?
    ensures r.Ok? ==> |r.value| == |rows|
    ensures r.Ok? ==> forall i :: 0 <= i < |rows| ==> WinnerCell(cols, rows[i]) == Ok(r.value[i])
  {
    if |rows| == 0 then Ok([])
    else
      var w :- WinnerCell(cols, rows[0]);
      var rest :- WinnerCells(cols, rows[1..]);
      Ok([w] + rest)
  }

  /** `create_bracket_winners`: the bracket gains a `Winner` column. An
      empty bracket reads nothing and cannot fail. */
  function CreateBracketWinners(t: Table): (r: Result<Table>)
    ensures |t.rows| == 0 ==> r == Ok(Assign(t, WinnerCol, []))
    ensures r.Ok? ==> |r.value.rows| == |t.rows|
    ensures r.Ok? ==> r.value.cols == if WinnerCol in t.cols then t.cols else t.cols + [WinnerCol]
  {
    var ws :- WinnerCells(t.cols, t.rows);
    Ok(Assign(t, WinnerCol, ws))
  }

  /** The winner of game `i` is the underdog exactly when the flag equals 1,
      and every other cell of the row is kept. */
  lemma BracketWinner(t: Table, i: nat, c: Col)
    requires UpsetCol in t.cols && Und("Team") in t.cols && Fav("Team") in t.cols && i < |t.rows|
    ensures CreateBracketWinners(t).Ok?
    ensures var row := CreateBracketWinners(t).value.rows[i];
      && Get(row, WinnerCol) == (if PyEq(Get(t.rows[i], UpsetCol), Int(1)) then Get(t.rows[i], Und("Team"))
                                 else Get(t.rows[i], Fav("Team")))
      && (c != WinnerCol ==> Get(row, c) == Get(t.rows[i], c))
  {
    forall k | 0 <= k < |t.rows|
      ensures WinnerCell(t.cols, t.rows[k]).Ok?
    {}
  }

  // ---------------------------------------------------------------------------
  // create_target_variable

  /** The labels holding the text `Score`. */
  function ScoreCols(cols: seq<Col>): (r: seq<Col>)
    ensures forall c :: c in r <==> c in cols && Contains(Spell(c), "Score")
  {
    if |cols| == 0 then []
    else (if Contains(Spell(cols[0]), "Score") then [cols[0]] else []) + ScoreCols(cols[1..])
  }

  /** The 0/1 labels and the frame without its score columns. */
  datatype Labelled = Labelled(target: seq<Bit>, rest: Table)

  function Bits(bs: seq<bool>): (r: seq<Bit>)
    ensures |r| == |bs| && forall i :: 0 <= i < |bs| ==> (r[i] == 1 <==> bs[i])
  {
    if |bs| == 0 then [] else [if bs[0] then 1 else 0] + Bits(bs[1..])
  }

  /** Element-wise `u > f` on two columns: a missing cell gives False,
      otherwise Python's `>`. */
  function CellGt(u: Value, f: Value): Result<bool> {
    if u == Null || f == Null then Ok(false) else Gt(u, f)
  }

  /** The same comparison on the scores read as integers (`astype(int)`). */
  function ScoreGt(u: Value, f: Value): Result<bool> {
    if u == Null || f == Null then Ok(false)
    else
      var x :- CastInt(u);
      var y :- CastInt(f);
      Gt(x, y)
  }

  /** Column-wise comparison with either cell comparison. */
  function CompareAll(us: seq<Value>, fs: seq<Value>, numeric: bool): (r: Result<seq<bool>>)
    requires |us| == |fs|
    ensures r.Ok? ==> |r.value| == |us|
    ensures r.Ok? ==> forall i :: 0 <= i < |us| ==>
      (if numeric then ScoreGt(us[i], fs[i]) else CellGt(us[i], fs[i])) == Ok(r.value[i])
    ensures r.Ok? <==> forall i :: 0 <= i < |us| ==> (if numeric then ScoreGt(us[i], fs[i]) else CellGt(us[i], fs[i])).Ok?
    ensures r.Err? ==> !r.error.KeyError?
  {
    if |us| == 0 then Ok([])
    else
      var b :- if numeric then ScoreGt(us[0], fs[0]) else CellGt(us[0], fs[0]);
      var rest :- CompareAll(us[1..], fs[1..], numeric);
      Ok([b] + rest)
  }

  /** `create_target_variable` with the comparison chosen by `numeric`:
      `Score_Underdog` is read before `Score_Favorite`, and every label
      containing `Score` is dropped afterwards. */
  function Target(t: Table, numeric: bool): (r: Result<Labelled>)
    ensures r.Ok? ==> Und("Score") in t.cols && Fav("Score") in t.cols
    ensures Und("Score") !in t.cols ==> r == Err(KeyError(Spell(Und("Score"))))
    ensures r.Ok? ==> |r.value.target| == |t.rows| && |r.value.rest.rows| == |t.rows|
    ensures r.Ok? ==> r.value.rest.cols == Without(t.cols, ScoreCols(t.cols))
    ensures r.Ok? ==> forall c :: c in r.value.rest.cols ==> !Contains(Spell(c), "Score")
    ensures Und("Score") in t.cols && Fav("Score") in t.cols ==> !(r.Err? && r.error.KeyError?)
  {
    var us :- Lookup(t, Und("Score"));
    var fs :- Lookup(t, Fav("Score"));
    var gt :- CompareAll(us, fs, numeric);
    var rest := Drop(t, ScoreCols(t.cols));
    Ok(Labelled(Bits(gt), rest.value))
  }

  /** The label of game `i` is 1 exactly when the underdog's score is
      greater under the chosen comparison. */
  lemma TargetLabel(t: Table, numeric: bool, i: nat)
    requires Target(t, numeric).Ok? && i < |t.rows|
    ensures var u, f := Get(t.rows[i], Und("Score")), Get(t.rows[i], Fav("Score"));
      var g := if numeric then ScoreGt(u, f) else CellGt(u, f);
      g.Ok? && (Target(t, numeric).value.target[i] == 1 <==> g.value)
  {}

  /** As written, the scores arrive as text and `>` orders them as strings;
      with integer scores written in decimal, the label is 1 exactly when
      the underdog's text is the greater string. */
  lemma TargetAsWrittenIsTextual(t: Table, i: nat)
    requires Target(t, false).Ok? && i < |t.rows|
    requires Get(t.rows[i], Und("Score")).Str? && Get(t.rows[i], Fav("Score")).Str?
    ensures Target(t, false).value.target[i] == 1 <==>
      LexLess(Get(t.rows[i], Fav("Score")).s, Get(t.rows[i], Und("Score")).s)
  {
    TargetLabel(t, false, i);
  }

  /** The score cells as framing leaves them: decimal text of naturals. */
  ghost predicate ScoreText(v: Value) {
    v.Str? && exists n: nat :: v.s == Show(n)
  }

  /** Scores with the same number of digits are ordered the same way as
      text and as numbers. */
  lemma ComparisonsAgreeOnEqualWidths(u: Value, f: Value)
    requires ScoreText(u) && ScoreText(f) && |u.s| == |f.s|
    ensures CellGt(u, f) == ScoreGt(u, f)
  {
    var nu: nat :| u.s == Show(nu);
    var nf: nat :| f.s == Show(nf);
    ParseShow(nu);
    ParseShow(nf);
    LexLessEqualLength(f.s, u.s);
  }

  /** So on such scores both comparisons give the same label. */
  lemma TargetsAgreeOnEqualWidths(t: Table, i: nat)
    requires Target(t, false).Ok? && Target(t, true).Ok? && i < |t.rows|
    requires var u, f := Get(t.rows[i], Und("Score")), Get(t.rows[i], Fav("Score"));
      ScoreText(u) && ScoreText(f) && |u.s| == |f.s|
    ensures Target(t, false).value.target[i] == Target(t, true).value.target[i]
  {
    ComparisonsAgreeOnEqualWidths(Get(t.rows[i], Und("Score")), Get(t.rows[i], Fav("Score")));
    TargetLabel(t, false, i);
    TargetLabel(t, true, i);
  }

  /** 100 against 99 as text and as numbers. */
  lemma ComparisonsOnUpsetByOne()
    ensures CellGt(Str("100"), Str("99")) == Ok(false)
    ensures ScoreGt(Str("100"), Str("99")) == Ok(true)
  {
    LexLessMisordersScores();
    assert Show(100) == "100" by {
      assert Show(1) == "1" && Show(10) == Show(1) + "0";
    }
    assert Show(99) == "99" by {
      assert Show(9) == "9";
    }
    ParseIntText(100);
    ParseIntText(99);
  }

  /** The one-game frame of an underdog win by 100 to 99, scores as the
      text array holds them. */
  function UpsetByOne(): Table {
    Table([Fav("Score"), Und("Score")], [map[Fav("Score") := Str("99"), Und("Score") := Str("100")]])
  }

  /** The comparison as written labels that game 0; the numeric one
      labels it 1. */
  lemma TargetMislabelsUpsetByOne()
    ensures Target(UpsetByOne(), false).Ok? && Target(UpsetByOne(), false).value.target == [0]
    ensures Target(UpsetByOne(), true).Ok? && Target(UpsetByOne(), true).value.target == [1]
  {
    var t := UpsetByOne();
    assert Und("Score") != Fav("Score");
    assert Get(t.rows[0], Und("Score")) == Str("100") && Get(t.rows[0], Fav("Score")) == Str("99");
    ComparisonsOnUpsetByOne();
    TargetLabel(t, false, 0);
    TargetLabel(t, true, 0);
  }
}
