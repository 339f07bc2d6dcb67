/** The cleaning steps of `data_clean.py`: scraped season tables cut down
    to tournament teams, tournament games reframed as favourite/underdog
    matchups, and the per-round bookkeeping of the bracket simulation.

    The wall-clock year and the unseen name-alias dictionaries are
    parameters. */
module Cleaning {

  import opened Results
  import opened Text
  import opened Tables
  import opened Framing
  import opened Outcomes
  import opened Dedupe

  // ---------------------------------------------------------------------------
  // clean_basic_stats

  const GCol: Col := Name("G")

  /** The statistics that follow linearly from the others. */
  const Dependent: seq<Col> := [Name("W"), Name("L"), Name("SRS"), Name("FGA"), Name("3PA"), Name("FTA")]

  predicate Formatting(c: Col) {
    Contains(Spell(c), "Unnamed") || Contains(Spell(c), "W.") || Contains(Spell(c), "L.")
  }

  /** The table-formatting labels, in column order. */
  function FormattingCols(cols: seq<Col>): (r: seq<Col>)
    ensures forall c :: c in r <==> c in cols && Formatting(c)
  {
    if |cols| == 0 then []
    else (if Formatting(cols[0]) then [cols[0]] else []) + FormattingCols(cols[1..])
  }

  function BasicDrops(cols: seq<Col>): seq<Col> {
    [Name("Rk"), Name("MP")] + FormattingCols(cols) + Dependent
  }

  /** Not one of the header rows the scrape repeats. */
  predicate StatsRow(row: Row) {
    Get(row, SchoolCol) != Str("School") && Get(row, GCol) != Str("Overall")
  }

  predicate NcaaRow(row: Row) {
    Get(row, SchoolCol).Str? && Contains(Get(row, SchoolCol).s, "NCAA")
  }

  predicate KeptRow(row: Row) {
    StatsRow(row) && NcaaRow(row)
  }

  /** `clean_basic_stats`. */
  function CleanBasicStats(df: Table): (r: Result<Table>)
    ensures r.Ok? ==> Drop(df, BasicDrops(df.cols)).Ok?
    ensures Drop(df, BasicDrops(df.cols)).Err? ==> r.Err? && r.error.KeyError?
    ensures r.Ok? ==> r.value.cols == Without(df.cols, BasicDrops(df.cols))
    ensures r.Ok? ==> r.value.rows == FilterRows(Drop(df, BasicDrops(df.cols)).value.rows, KeptRow)
    ensures r.Ok? ==> forall x :: x in r.value.rows ==> StatsRow(x) && NcaaRow(x)
  {
    var t :- Drop(df, BasicDrops(df.cols));
    var _ :- Need(t.cols, [SchoolCol, GCol]);
    var rows := FilterRows(t.rows, StatsRow);
    var schools := ColumnOf(rows, SchoolCol);
    if NoText(schools) then Err(AttributeError)
    else if exists i :: 0 <= i < |schools| && !schools[i].Str? then Err(ValueError)
    else
      FilterRowsTwice(t.rows, StatsRow, NcaaRow, KeptRow);
      Ok(Table(t.cols, FilterRows(rows, NcaaRow)))
  }

  /** A header row never survives, and a tournament row with text names
      always does. */
  lemma BasicStatsRows(df: Table, x: Row)
    requires CleanBasicStats(df).Ok?
    ensures x in CleanBasicStats(df).value.rows <==>
      x in Drop(df, BasicDrops(df.cols)).value.rows && StatsRow(x) && NcaaRow(x)
  {}

  // ---------------------------------------------------------------------------
  // clean_coach_stats

  /** A Coach_Team cell after the alias table is applied. */
  function Alias(aliases: map<string, string>, v: Value): Value {
    if v.Str? && v.s in aliases then Str(aliases[v.s]) else v
  }

  /** Blank cells, the scrape's missing values, read '0'. */
  function Blank(v: Value): Value {
    if v == Str("") then Str("0") else v
  }

  function CoachCell(cols: seq<Col>, aliases: map<string, string>, c: Col, v: Value): Value {
    var named := if c == CoachTeamCol then Alias(aliases, v) else v;
    if |cols| > 0 && c in cols[1..] then Blank(named) else named
  }

  function CoachRows(cols: seq<Col>, aliases: map<string, string>, rows: seq<Row>): (r: seq<Row>)
    requires |cols| > 0
    ensures |r| == |rows|
    ensures forall i, c :: 0 <= i < |rows| && c in rows[i] ==> c in r[i] && r[i][c] == CoachCell(cols, aliases, c, rows[i][c])
    ensures forall i, c :: 0 <= i < |rows| && c !in rows[i] ==> c !in r[i]
  {
    seq(|rows|, i requires 0 <= i < |rows| => CoachRowCells(cols, aliases, rows[i]))
  }

  function CoachRowCells(cols: seq<Col>, aliases: map<string, string>, row: Row): (r: Row)
    ensures r.Keys == row.Keys
    ensures forall c :: c in row ==> r[c] == CoachCell(cols, aliases, c, row[c])
  {
    map c | c in row :: CoachCell(cols, aliases, c, row[c])
  }

  /** `clean_coach_stats`: team names aliased, then blanks in every column
      but the first filled with '0'. */
  function CleanCoachStats(coach: Table, aliases: map<string, string>): (r: Result<Table>)
    ensures r.Ok? <==> CoachTeamCol in coach.cols
    ensures r.Err? ==> r == Err(KeyError("Coach_Team"))
    ensures r.Ok? ==> r.value.cols == coach.cols && |r.value.rows| == |coach.rows|
    ensures r.Ok? ==> forall i, c :: 0 <= i < |coach.rows| && c in coach.rows[i] ==>
      Get(r.value.rows[i], c) == CoachCell(coach.cols, aliases, c, coach.rows[i][c])
  {
    var _ :- Need(coach.cols, [CoachTeamCol]);
    Ok(Table(coach.cols, CoachRows(coach.cols, aliases, coach.rows)))
  }

  /** After cleaning, no column but the first holds a blank, and the first
      column is untouched unless it is Coach_Team. */
  lemma CoachBlanksFilled(coach: Table, aliases: map<string, string>, i: nat, c: Col)
    requires CleanCoachStats(coach, aliases).Ok? && i < |coach.rows|
    ensures c in coach.cols[1..] ==> Get(CleanCoachStats(coach, aliases).value.rows[i], c) != Str("")
    ensures c !in coach.cols[1..] && c != CoachTeamCol ==>
      Get(CleanCoachStats(coach, aliases).value.rows[i], c) == Get(coach.rows[i], c)
    ensures c == CoachTeamCol && c !in coach.cols[1..] ==>
      Get(CleanCoachStats(coach, aliases).value.rows[i], c) == Alias(aliases, Get(coach.rows[i], c))
  {
    var r := CleanCoachStats(coach, aliases).value;
    if c !in coach.rows[i] {
      assert c !in r.rows[i];
      if c in coach.cols[1..] {
        assert Get(r.rows[i], c) == Null;
      }
    }
  }

  // ---------------------------------------------------------------------------
  // clean_tourney_data

  /** The scrape writes each name twice; every cell must be text. */
  function HalveAll(vs: seq<Value>): (r: Result<seq<Value>>)
    ensures r.Ok? <==> forall i :: 0 <= i < |vs| ==> vs[i].Str?
    ensures r.Err? ==> r == Err(TypeError)
    ensures r.Ok? ==> |r.value| == |vs| && forall i :: 0 <= i < |vs| ==> r.value[i] == Str(Halve(vs[i].s))
  {
    if |vs| == 0 then Ok([])
    else if !vs[0].Str? then Err(TypeError)
    else
      var rest :- HalveAll(vs[1..]);
      Ok([Str(Halve(vs[0].s))] + rest)
  }

  function HalveCol(t: Table, c: Col): (r: Result<Table>)
    ensures r.Ok? <==> c in t.cols && forall i :: 0 <= i < |t.rows| ==> Get(t.rows[i], c).Str?
    ensures c !in t.cols ==> r == Err(KeyError(Spell(c)))
    ensures r.Ok? ==> r.value.cols == t.cols && |r.value.rows| == |t.rows|
    ensures r.Ok? ==> forall i, d :: 0 <= i < |t.rows| ==>
      Get(r.value.rows[i], d) == if d == c then Str(Halve(Get(t.rows[i], c).s)) else Get(t.rows[i], d)
  {
    var vs :- Lookup(t, c);
    var hs :- HalveAll(vs);
    Ok(Assign(t, c, hs))
  }

  const NameCols: seq<Col> := [RoundCol, TeamCol, Team1Col]

  /** Round, Team and Team.1 halved in that order. */
  function HalveNames(t: Table): (r: Result<Table>)
    ensures r.Ok? ==> r.value.cols == t.cols && |r.value.rows| == |t.rows|
    ensures r.Ok? ==> forall c :: c in NameCols ==> c in t.cols
    ensures RoundCol !in t.cols ==> r == Err(KeyError("Round"))
  {
    var a :- HalveCol(t, RoundCol);
    var b :- HalveCol(a, TeamCol);
    HalveCol(b, Team1Col)
  }

  /** Every name cell is halved; all other cells are kept. */
  lemma HalveNamesCell(t: Table, i: nat, c: Col)
    requires HalveNames(t).Ok? && i < |t.rows|
    ensures c in NameCols ==> Get(t.rows[i], c).Str? && Get(HalveNames(t).value.rows[i], c) == Str(Halve(Get(t.rows[i], c).s))
    ensures c !in NameCols ==> Get(HalveNames(t).value.rows[i], c) == Get(t.rows[i], c)
  {
    var a := HalveCol(t, RoundCol).value;
    var b := HalveCol(a, TeamCol).value;
    assert HalveNames(t) == HalveCol(b, Team1Col);
    assert "Round"[0] != "Team"[0] && |"Team"| != |"Team.1"|;
    assert c in NameCols <==> c == RoundCol || c == TeamCol || c == Team1Col;
    HalveThreeCell(t, RoundCol, TeamCol, Team1Col, i, c);
  }

  /** Three distinct columns halved one after the other. */
  lemma HalveThreeCell(t: Table, x: Col, y: Col, z: Col, i: nat, c: Col)
    requires x != y && y != z && x != z && i < |t.rows|
    requires HalveCol(t, x).Ok? && HalveCol(HalveCol(t, x).value, y).Ok?
    requires HalveCol(HalveCol(HalveCol(t, x).value, y).value, z).Ok?
    ensures var f := HalveCol(HalveCol(HalveCol(t, x).value, y).value, z).value;
      && i < |f.rows|
      && (c == x || c == y || c == z ==> Get(t.rows[i], c).Str? && Get(f.rows[i], c) == Str(Halve(Get(t.rows[i], c).s)))
      && (c != x && c != y && c != z ==> Get(f.rows[i], c) == Get(t.rows[i], c))
  {
    var a := HalveCol(t, x).value;
    var b := HalveCol(a, y).value;
    HalveColCell(t, x, i, c);
    HalveColCell(a, y, i, c);
    HalveColCell(b, z, i, c);
    if c == y {
      HalveColCell(t, x, i, y);
    } else if c == z {
      HalveColCell(t, x, i, z);
      HalveColCell(a, y, i, z);
    }
  }

  lemma HalveColCell(t: Table, d: Col, i: nat, c: Col)
    requires i < |t.rows|
    ensures HalveCol(t, d).Ok? ==> Get(t.rows[i], d).Str? && i < |HalveCol(t, d).value.rows|
    ensures HalveCol(t, d).Ok? ==>
      Get(HalveCol(t, d).value.rows[i], c) == if c == d then Str(Halve(Get(t.rows[i], d).s)) else Get(t.rows[i], c)
  {}

  /** A name scraped as `w + w` comes back as `w`, stripped. */
  lemma HalveNamesDoubled(t: Table, i: nat, c: Col, w: string)
    requires HalveNames(t).Ok? && i < |t.rows| && c in NameCols
    requires Get(t.rows[i], c) == Str(w + w)
    ensures Get(HalveNames(t).value.rows[i], c) == Str(Strip(w))
  {
    HalveNamesCell(t, i, c);
    HalveDoubled(w);
  }

  /** `faves_unds[key][:, j]`: column `j` of the array, or None where numpy
      raises IndexError (an empty array, or rows too short). */
  function ArrayColumn(arr: seq<seq<Value>>, j: nat): (r: Option<seq<Value>>)
    ensures r.Some? <==> |arr| > 0 && forall i :: 0 <= i < |arr| ==> j < |arr[i]|
    ensures r.Some? ==> |r.value| == |arr| && forall i :: 0 <= i < |arr| ==> r.value[i] == arr[i][j]
  {
    if |arr| > 0 && forall i :: 0 <= i < |arr| ==> j < |arr[i]| then
      Some(seq(|arr|, i requires 0 <= i < |arr| => arr[i][j]))
    else None
  }

  const Struct: seq<string> := ["Seed", "Team", "Score"]

  function SideCol(j: nat, role: Role): Col
    requires j < |Struct|
  {
    Side(Name(Struct[j]), role)
  }

  /** `df[c] = vals`, read cell by cell. */
  function Put(t: Table, c: Col, vals: seq<Value>): (r: Table)
    requires |vals| == |t.rows|
    ensures r.cols == if c in t.cols then t.cols else t.cols + [c]
    ensures |r.rows| == |t.rows|
    ensures forall i, d :: 0 <= i < |t.rows| ==> Get(r.rows[i], d) == if d == c then vals[i] else Get(t.rows[i], d)
  {
    Assign(t, c, vals)
  }

  /** The labels `AddSide` writes, in order. */
  function Added(arr: seq<seq<Value>>, role: Role, j: nat): (r: seq<Col>)
    requires j <= |Struct|
    decreases |Struct| - j
  {
    if j == |Struct| then []
    else (if ArrayColumn(arr, j).Some? then [SideCol(j, role)] else []) + Added(arr, role, j + 1)
  }

  /** The columns `<Seed|Team|Score>_<role>` from position `j` on, each
      skipped when its array column raises IndexError. */
  function AddSide(t: Table, arr: seq<seq<Value>>, role: Role, j: nat): (r: Table)
    requires |arr| == |t.rows| && j <= |Struct|
    ensures |r.rows| == |t.rows|
    ensures forall c :: c in r.cols <==> c in t.cols || c in Added(arr, role, j)
    ensures forall i, k :: 0 <= i < |t.rows| && j <= k < |Struct| && ArrayColumn(arr, k).Some? ==>
      Get(r.rows[i], SideCol(k, role)) == arr[i][k]
    ensures forall i, c :: 0 <= i < |t.rows| && (forall k :: j <= k < |Struct| ==> c != SideCol(k, role)) ==>
      Get(r.rows[i], c) == Get(t.rows[i], c)
    decreases |Struct| - j
  {
    if j == |Struct| then t
    else
      match ArrayColumn(arr, j)
      case None => AddSide(t, arr, role, j + 1)
      case Some(col) =>
        assert forall k :: j < k < |Struct| ==> Struct[k] != Struct[j];
        AddSide(Put(t, SideCol(j, role), col), arr, role, j + 1)
  }

  function AddSides(t: Table, fr: Framed): (r: Table)
    requires |fr.favorite| == |t.rows| && |fr.underdog| == |t.rows|
    ensures |r.rows| == |t.rows|
  {
    AddSide(AddSide(t, fr.favorite, Favorite, 0), fr.underdog, Underdog, 0)
  }

  function BitCells(bs: seq<Bit>): (r: seq<Value>)
    ensures |r| == |bs| && forall i :: 0 <= i < |bs| ==> r[i] == Int(bs[i])
  {
    if |bs| == 0 then [] else [Int(bs[0])] + BitCells(bs[1..])
  }

  /** `mm_df['Underdog_Upset'] = create_target_variable(mm_df)`, skipped
      when the score columns are missing. */
  function WithTarget(t: Table): (r: Result<Table>)
    ensures Und("Score") !in t.cols || Fav("Score") !in t.cols ==> r == Ok(t)
    ensures r.Ok? && Und("Score") in t.cols && Fav("Score") in t.cols ==>
      Target(t, true).Ok? && r.value == Assign(Target(t, true).value.rest, UpsetCol, BitCells(Target(t, true).value.target))
    ensures r.Ok? ==> |r.value.rows| == |t.rows|
  {
    match Target(t, true)
    case Err(KeyError(_)) => Ok(t)
    case Err(e) => Err(e)
    case Ok(l) => Ok(Assign(l.rest, UpsetCol, BitCells(l.target)))
  }

  /** `clean_tourney_data`: names halved for past years, games reframed as
      favourite/underdog columns, the target attached when scores exist,
      and the raw game columns dropped. The rest of the model uses the
      integer score comparison (see `Outcomes.Target`). */
  function CleanTourneyData(year: int, currentYear: int, mm: Table, season: Table): (r: Result<Table>)
    ensures r.Ok? ==> forall c :: c in GameCols ==> c !in r.value.cols
    ensures r.Ok? ==> |r.value.rows| == |mm.rows|
    ensures year != currentYear && RoundCol !in mm.cols ==> r == Err(KeyError("Round"))
  {
    var named :- if year != currentYear then HalveNames(mm) else Ok(mm);
    var fr :- Frame(named, season);
    var labelled :- WithTarget(AddSides(named, fr));
    Drop(labelled, GameCols)
  }

  /** The seed labels of either side hold no `Score`. */
  lemma SeedLabelScoreFree(role: Role)
    requires role == Favorite || role == Underdog
    ensures !Contains(Spell(SideCol(0, role)), "Score")
  {
    var seed := Spell(SideCol(0, role));
    assert seed[1] == 'e';
    assert 'S' !in seed[1..];
    AbsentLeadNotContained(seed[1..], "Score");
  }

  /** Neither do the team labels nor the target. */
  lemma TeamLabelScoreFree(role: Role)
    requires role == Favorite || role == Underdog
    ensures !Contains(Spell(SideCol(1, role)), "Score")
    ensures !Contains(Spell(UpsetCol), "Score")
  {
    AbsentLeadNotContained(Spell(SideCol(1, role)), "Score");
    AbsentLeadNotContained(Spell(UpsetCol), "Score");
  }

  /** The labels `AddSide` writes from position 0: one per array column
      that does not raise. */
  lemma AddedValue(arr: seq<seq<Value>>, role: Role)
    ensures Added(arr, role, 0) ==
      (if ArrayColumn(arr, 0).Some? then [SideCol(0, role)] else []) +
      (if ArrayColumn(arr, 1).Some? then [SideCol(1, role)] else []) +
      (if ArrayColumn(arr, 2).Some? then [SideCol(2, role)] else [])
  {
    assert Added(arr, role, 3) == [];
    assert Added(arr, role, 2) == (if ArrayColumn(arr, 2).Some? then [SideCol(2, role)] else []);
  }

  /** The framed arrays are as wide as the entries: three columns when the
      games carry scores, else two; an empty array has none. */
  lemma FramedWidth(mm: Table, season: Table, k: nat)
    requires Frame(mm, season).Ok? && k < |Struct|
    ensures var fr := Frame(mm, season).value;
      && (ArrayColumn(fr.favorite, k).Some? <==> |mm.rows| > 0 && (k < 2 || Scored(mm.cols)))
      && (ArrayColumn(fr.underdog, k).Some? <==> |mm.rows| > 0 && (k < 2 || Scored(mm.cols)))
  {
    var fr := Frame(mm, season).value;
    forall i | 0 <= i < |mm.rows|
      ensures |fr.favorite[i]| == |fr.underdog[i]| == if Scored(mm.cols) then 3 else 2
    {
      var s := FrameRow(mm.cols, season, mm.rows[i]).value;
      assert s.fav.score.Some? == s.und.score.Some? == Scored(mm.cols);
    }
    if |mm.rows| > 0 {
      assert |fr.favorite[0]| == if Scored(mm.cols) then 3 else 2;
    }
  }

  /** The table named games are read from: halved for past years. */
  function Named(year: int, currentYear: int, mm: Table): Result<Table> {
    if year != currentYear then HalveNames(mm) else Ok(mm)
  }

  /** The framed, sided table before the target is attached. */
  function Sided(year: int, currentYear: int, mm: Table, season: Table): (r: Result<Table>)
    ensures r.Ok? ==> Named(year, currentYear, mm).Ok? && Frame(Named(year, currentYear, mm).value, season).Ok?
  {
    var named :- Named(year, currentYear, mm);
    var fr :- Frame(named, season);
    Ok(AddSides(named, fr))
  }

  lemma CleanTourneyBySides(year: int, currentYear: int, mm: Table, season: Table)
    requires CleanTourneyData(year, currentYear, mm, season).Ok?
    ensures Sided(year, currentYear, mm, season).Ok?
    ensures WithTarget(Sided(year, currentYear, mm, season).value).Ok?
    ensures CleanTourneyData(year, currentYear, mm, season) == Drop(WithTarget(Sided(year, currentYear, mm, season).value).value, GameCols)
  {}

  /** Whether label `c` is in the sided table: it is one of the game's own,
      or a label written for one of the sides. */
  lemma AddSidesCol(t: Table, fr: Framed, c: Col)
    requires |fr.favorite| == |t.rows| && |fr.underdog| == |t.rows|
    ensures c in AddSides(t, fr).cols <==>
      c in t.cols || c in Added(fr.favorite, Favorite, 0) || c in Added(fr.underdog, Underdog, 0)
  {}

  /** The labels written for a side whose array has `w` columns. */
  lemma AddedOfWidth(arr: seq<seq<Value>>, role: Role, three: bool)
    requires ArrayColumn(arr, 0).Some? && ArrayColumn(arr, 1).Some? && ArrayColumn(arr, 2).Some? == three
    ensures Added(arr, role, 0) == [SideCol(0, role), SideCol(1, role)] + (if three then [SideCol(2, role)] else [])
  {
    AddedValue(arr, role);
  }

  lemma SidesCol(t: Table, fr: Framed, c: Col, three: bool)
    requires |fr.favorite| == |t.rows| && |fr.underdog| == |t.rows|
    requires ArrayColumn(fr.favorite, 0).Some? && ArrayColumn(fr.favorite, 1).Some? && ArrayColumn(fr.favorite, 2).Some? == three
    requires ArrayColumn(fr.underdog, 0).Some? && ArrayColumn(fr.underdog, 1).Some? && ArrayColumn(fr.underdog, 2).Some? == three
    ensures c in AddSides(t, fr).cols <==>
      || c in t.cols
      || c in [SideCol(0, Favorite), SideCol(1, Favorite), SideCol(0, Underdog), SideCol(1, Underdog)]
      || (three && c in [SideCol(2, Favorite), SideCol(2, Underdog)])
  {
    AddSidesCol(t, fr, c);
    AddedOfWidth(fr.favorite, Favorite, three);
    AddedOfWidth(fr.underdog, Underdog, three);
    AddedHas(Added(fr.favorite, Favorite, 0), Favorite, three, c);
    AddedHas(Added(fr.underdog, Underdog, 0), Underdog, three, c);
  }

  lemma AddedHas(added: seq<Col>, role: Role, three: bool, c: Col)
    requires added == [SideCol(0, role), SideCol(1, role)] + (if three then [SideCol(2, role)] else [])
    ensures c in added <==> c == SideCol(0, role) || c == SideCol(1, role) || (three && c == SideCol(2, role))
  {}

  /** For games with rows, the sided table holds label `c` exactly when the
      games do, or `c` is a side's seed or team label, or a side's score
      label and the games carry scores. */
  lemma SidedCol(year: int, currentYear: int, mm: Table, season: Table, c: Col)
    requires Sided(year, currentYear, mm, season).Ok? && |mm.rows| > 0
    ensures c in Sided(year, currentYear, mm, season).value.cols <==>
      || c in mm.cols
      || c in [SideCol(0, Favorite), SideCol(1, Favorite), SideCol(0, Underdog), SideCol(1, Underdog)]
      || (Scored(mm.cols) && c in [SideCol(2, Favorite), SideCol(2, Underdog)])
  {
    var named := Named(year, currentYear, mm).value;
    var fr := Frame(named, season).value;
    assert named.cols == mm.cols && |named.rows| == |mm.rows|;
    FramedWidth(named, season, 0);
    FramedWidth(named, season, 1);
    FramedWidth(named, season, 2);
    SidesCol(named, fr, c, Scored(mm.cols));
  }

  /** Freshly scraped games: plain labels and no target yet. */
  predicate Fresh(mm: Table) {
    (forall c :: c in mm.cols ==> c.Name?) && UpsetCol !in mm.cols
  }

  /** With scores, the cleaned games carry both sides' seed and team, the
      target, and no score label. */
  lemma TourneyColsScored(year: int, currentYear: int, mm: Table, season: Table)
    requires CleanTourneyData(year, currentYear, mm, season).Ok? && |mm.rows| > 0
    requires Fresh(mm) && Scored(mm.cols)
    ensures var cols := CleanTourneyData(year, currentYear, mm, season).value.cols;
      && SideCol(0, Favorite) in cols && SideCol(1, Favorite) in cols
      && SideCol(0, Underdog) in cols && SideCol(1, Underdog) in cols
      && UpsetCol in cols
      && forall c :: c in cols ==> !Contains(Spell(c), "Score")
  {
    CleanTourneyBySides(year, currentYear, mm, season);
    var sided := Sided(year, currentYear, mm, season).value;
    SidedCol(year, currentYear, mm, season, Und("Score"));
    SidedCol(year, currentYear, mm, season, Fav("Score"));
    SidedCol(year, currentYear, mm, season, SideCol(0, Favorite));
    SidedCol(year, currentYear, mm, season, SideCol(1, Favorite));
    SidedCol(year, currentYear, mm, season, SideCol(0, Underdog));
    SidedCol(year, currentYear, mm, season, SideCol(1, Underdog));
    var l := Target(sided, true).value;
    var w := WithTarget(sided).value;
    assert w == Assign(l.rest, UpsetCol, BitCells(l.target));
    TargetedLabels(sided.cols, l.rest.cols, w.cols, CleanTourneyData(year, currentYear, mm, season).value.cols);
  }

  /** The labels left once the score columns give way to the target and the
      raw game columns are dropped. */
  lemma TargetedLabels(sided: seq<Col>, rest: seq<Col>, labelled: seq<Col>, cols: seq<Col>)
    requires rest == Without(sided, ScoreCols(sided))
    requires forall c :: c in rest ==> !Contains(Spell(c), "Score")
    requires labelled == if UpsetCol in rest then rest else rest + [UpsetCol]
    requires cols == Without(labelled, GameCols)
    requires SideCol(0, Favorite) in sided && SideCol(1, Favorite) in sided
    requires SideCol(0, Underdog) in sided && SideCol(1, Underdog) in sided
    ensures SideCol(0, Favorite) in cols && SideCol(1, Favorite) in cols
    ensures SideCol(0, Underdog) in cols && SideCol(1, Underdog) in cols
    ensures UpsetCol in cols
    ensures forall c :: c in cols ==> !Contains(Spell(c), "Score")
  {
    UpsetSurvivesDrop(rest, labelled, cols);
    SeedAndTeamSurvive(sided, rest, labelled, cols, Favorite);
    SeedAndTeamSurvive(sided, rest, labelled, cols, Underdog);
    NoScoreSurvives(rest, labelled, cols);
  }

  lemma NoScoreSurvives(rest: seq<Col>, labelled: seq<Col>, cols: seq<Col>)
    requires forall c :: c in rest ==> !Contains(Spell(c), "Score")
    requires labelled == if UpsetCol in rest then rest else rest + [UpsetCol]
    requires cols == Without(labelled, GameCols)
    ensures forall c :: c in cols ==> !Contains(Spell(c), "Score")
  {
    TeamLabelScoreFree(Favorite);
  }

  lemma UpsetSurvivesDrop(rest: seq<Col>, labelled: seq<Col>, cols: seq<Col>)
    requires labelled == if UpsetCol in rest then rest else rest + [UpsetCol]
    requires cols == Without(labelled, GameCols)
    ensures UpsetCol in cols
  {
    assert UpsetCol in labelled;
    assert "Underdog_Upset"[0] != "Seed"[0] && "Underdog_Upset"[0] != "Team"[0];
    assert "Underdog_Upset"[0] != "Seed.1"[0] && "Underdog_Upset"[0] != "Team.1"[0];
  }

  lemma SeedAndTeamSurvive(sided: seq<Col>, rest: seq<Col>, labelled: seq<Col>, cols: seq<Col>, role: Role)
    requires role == Favorite || role == Underdog
    requires rest == Without(sided, ScoreCols(sided))
    requires labelled == if UpsetCol in rest then rest else rest + [UpsetCol]
    requires cols == Without(labelled, GameCols)
    requires SideCol(0, role) in sided && SideCol(1, role) in sided
    ensures SideCol(0, role) in cols && SideCol(1, role) in cols
  {
    SeedLabelScoreFree(role);
    TeamLabelScoreFree(role);
    SideSurvives(sided, rest, labelled, cols, SideCol(0, role));
    SideSurvives(sided, rest, labelled, cols, SideCol(1, role));
  }

  lemma SideSurvives(sided: seq<Col>, rest: seq<Col>, labelled: seq<Col>, cols: seq<Col>, c: Col)
    requires c.Side? && !Contains(Spell(c), "Score")
    requires rest == Without(sided, ScoreCols(sided))
    requires labelled == if UpsetCol in rest then rest else rest + [UpsetCol]
    requires cols == Without(labelled, GameCols)
    requires c in sided
    ensures c in cols
  {
    ScoreFreeKept(sided, rest, c);
    assert c in labelled;
    SideNotGame(labelled, cols, c);
  }

  lemma ScoreFreeKept(sided: seq<Col>, rest: seq<Col>, c: Col)
    requires !Contains(Spell(c), "Score") && rest == Without(sided, ScoreCols(sided)) && c in sided
    ensures c in rest
  {
    assert c !in ScoreCols(sided);
  }

  lemma SideNotGame(labelled: seq<Col>, cols: seq<Col>, c: Col)
    requires c.Side? && c in labelled && cols == Without(labelled, GameCols)
    ensures c in cols
  {
    assert c != SeedCol && c != TeamCol && c != Seed1Col && c != Team1Col;
    assert c !in GameCols;
  }

  /** Without scores, reframing adds neither a score nor a target label. */
  lemma UnscoredSidedLacks(year: int, currentYear: int, mm: Table, season: Table)
    requires Sided(year, currentYear, mm, season).Ok? && |mm.rows| > 0
    requires Fresh(mm) && !Scored(mm.cols)
    ensures Und("Score") !in Sided(year, currentYear, mm, season).value.cols
    ensures UpsetCol !in Sided(year, currentYear, mm, season).value.cols
  {
    SidedCol(year, currentYear, mm, season, Und("Score"));
    SidedCol(year, currentYear, mm, season, UpsetCol);
    UnlistedLabel(mm.cols, Und("Score"));
    UnlistedLabel(mm.cols, UpsetCol);
  }

  /** Neither the underdog score nor the target is a plain or a seed/team
      label. */
  lemma UnlistedLabel(cols: seq<Col>, c: Col)
    requires (forall x :: x in cols ==> x.Name?) && UpsetCol !in cols
    requires c == Und("Score") || c == UpsetCol
    ensures c !in cols
    ensures c !in [SideCol(0, Favorite), SideCol(1, Favorite), SideCol(0, Underdog), SideCol(1, Underdog)]
  {
    assert Struct[0] == "Seed" && Struct[1] == "Team";
    assert "Score"[1] != "Seed"[1] && "Score"[0] != "Team"[0];
  }

  /** Without scores, the cleaned games carry both sides' seed and team and
      no target. */
  lemma TourneyColsUnscored(year: int, currentYear: int, mm: Table, season: Table)
    requires CleanTourneyData(year, currentYear, mm, season).Ok? && |mm.rows| > 0
    requires Fresh(mm) && !Scored(mm.cols)
    ensures var cols := CleanTourneyData(year, currentYear, mm, season).value.cols;
      && SideCol(0, Favorite) in cols && SideCol(1, Favorite) in cols
      && SideCol(0, Underdog) in cols && SideCol(1, Underdog) in cols
      && UpsetCol !in cols
  {
    CleanTourneyBySides(year, currentYear, mm, season);
    var sided := Sided(year, currentYear, mm, season).value;
    UnscoredSidedLacks(year, currentYear, mm, season);
    SidedCol(year, currentYear, mm, season, SideCol(0, Favorite));
    SidedCol(year, currentYear, mm, season, SideCol(1, Favorite));
    SidedCol(year, currentYear, mm, season, SideCol(0, Underdog));
    SidedCol(year, currentYear, mm, season, SideCol(1, Underdog));
  }
}
