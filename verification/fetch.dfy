/** The row-building rules of `data_fetch.py` (and its identical copy under
    `API/fetch/`): what becomes of the scraped bracket games, rankings and
    coach rows once the HTML has been reduced to texts, and the two null
    summaries of the merged dataset. Page navigation is not modelled: each
    scraped element arrives already reduced to the strings the code reads. */
module Fetch {

  import opened Results
  import opened Text
  import opened Tables
  import opened Dedupe
  import opened Rounds

  // ---------------------------------------------------------------------------
  // get_team_data

  /** `pd.read_html(...)[0]`, with a scrape that finds no table (pandas
      raises ValueError) replaced by an empty frame. */
  function TeamData(scrape: Result<seq<Table>>): (r: Result<Table>)
    ensures scrape == Err(ValueError) ==> r == Ok(Empty()) && IsEmpty(r.value)
    ensures scrape.Err? && scrape.error != ValueError ==> r == Err(scrape.error)
    ensures scrape.Ok? && |scrape.value| > 0 ==> r == Ok(scrape.value[0])
  {
    match scrape
    case Err(ValueError) => Ok(Empty())
    case Err(e) => Err(e)
    case Ok(ts) => if |ts| == 0 then Err(IndexError) else Ok(ts[0])
  }

  // ---------------------------------------------------------------------------
  // get_current_bracket

  /** A game of the bracket page: the text of its `dt` element and the
      `title` of each team link, in page order. */
  datatype Game = Game(text: string, titles: seq<string>)

  const BracketCols: seq<Col> := [SeedCol, TeamCol, Seed1Col, Team1Col]

  function Matchup(seed: Value, team: Value, seed1: Value, team1: Value): (r: Row)
    ensures Get(r, SeedCol) == seed && Get(r, TeamCol) == team
    ensures Get(r, Seed1Col) == seed1 && Get(r, Team1Col) == team1
  {
    map[SeedCol := seed, TeamCol := team, Seed1Col := seed1, Team1Col := team1]
  }

  /** A game still waiting for a play-in winner names at most one team or
      one seed. */
  predicate Complete(g: Game) {
    |DigitRuns(g.text)| >= 2 && |g.titles| >= 2
  }

  /** One game's row: both seeds and teams when the text has them; the
      placeholder `[seed, team, 0, None]` when only the first side is
      known; nothing when no team is named. With a team but no seed the
      placeholder itself raises IndexError. */
  function GameRow(g: Game): (r: Result<Option<Row>>)
    ensures r.Err? <==> |g.titles| > 0 && |DigitRuns(g.text)| == 0
    ensures r.Err? ==> r.error == IndexError
    ensures r.Ok? ==> (r.value.Some? <==> |g.titles| > 0)
    ensures r.Ok? && r.value.Some? ==> var row := r.value.value;
      && Get(row, SeedCol) == Int(DigitRuns(g.text)[0])
      && Get(row, TeamCol) == Str(g.titles[0])
      && (Complete(g) ==> Get(row, Seed1Col) == Int(DigitRuns(g.text)[1]) && Get(row, Team1Col) == Str(g.titles[1]))
      && (!Complete(g) ==> Get(row, Seed1Col) == Int(0) && Get(row, Team1Col) == Null)
    ensures r.Ok? && r.value.Some? ==> (RowHasNull(BracketCols, r.value.value) <==> !Complete(g))
  {
    var seeds := DigitRuns(g.text);
    if Complete(g) then
      Ok(Some(Matchup(Int(seeds[0]), Str(g.titles[0]), Int(seeds[1]), Str(g.titles[1]))))
    else if |g.titles| == 0 then Ok(None)
    else if |seeds| == 0 then Err(IndexError)
    else
      var row := Matchup(Int(seeds[0]), Str(g.titles[0]), Int(0), Null);
      assert Team1Col in BracketCols && Get(row, Team1Col) == Null;
      Ok(Some(row))
  }

  /** How many items of a page satisfy `p`. */
  function Count<T>(xs: seq<T>, p: T -> bool): (n: nat)
    ensures n <= |xs|
  {
    if |xs| == 0 then 0
    else Count(xs[..|xs| - 1], p) + (if p(xs[|xs| - 1]) then 1 else 0)
  }

  /** A game names a team when its text has a link. */
  predicate Titled(g: Game) {
    |g.titles| > 0
  }

  /** How many of the games yield a row. */
  function Yielded(gs: seq<Game>): (n: nat)
    ensures n <= |gs|
  {
    Count(gs, Titled)
  }

  /** Every item of a page parses exactly when the items before the last
      do and the last does. */
  lemma AllOkSnoc<T>(xs: seq<T>, front: seq<T>, f: T -> Result<Option<Row>>)
    requires |xs| > 0 && front == xs[..|xs| - 1]
    ensures (forall k :: 0 <= k < |xs| ==> f(xs[k]).Ok?) <==>
      (forall k :: 0 <= k < |front| ==> f(front[k]).Ok?) && f(xs[|xs| - 1]).Ok?
  {
    assert forall k :: 0 <= k < |front| ==> front[k] == xs[k];
  }

  /** A prefix of a prefix is a prefix. */
  lemma PrefixOfPrefix<T>(s: seq<T>, m: nat, k: nat)
    requires k <= m <= |s|
    ensures s[..m][..k] == s[..k]
  {}

  /** The rows the items of a page give, in page order: an item gives a
      row, nothing, or raises, and the first raising item raises. */
  function PageRows<T>(xs: seq<T>, f: T -> Result<Option<Row>>): (r: Result<seq<Row>>)
    ensures r.Ok? <==> forall k :: 0 <= k < |xs| ==> f(xs[k]).Ok?
  {
    if |xs| == 0 then Ok([])
    else
      var front := xs[..|xs| - 1];
      AllOkSnoc(xs, front, f);
      var rows :- PageRows(front, f);
      var row :- f(xs[|xs| - 1]);
      match row
      case None => Ok(rows)
      case Some(x) => Ok(rows + [x])
  }

  /** When exactly the items satisfying `p` give a row, the page gives one
      row per such item. */
  lemma {:induction false} PageRowsCount<T>(xs: seq<T>, f: T -> Result<Option<Row>>, p: T -> bool)
    requires forall x :: f(x).Ok? ==> (f(x).value.Some? <==> p(x))
    ensures PageRows(xs, f).Ok? ==> |PageRows(xs, f).value| == Count(xs, p)
  {
    if |xs| > 0 {
      PageRowsCount(xs[..|xs| - 1], f, p);
    }
  }

  /** An item's row sits right after the rows of the items before it. */
  lemma {:induction false} PageRowsAt<T>(xs: seq<T>, f: T -> Result<Option<Row>>, k: nat)
    requires PageRows(xs, f).Ok? && k < |xs| && f(xs[k]).value.Some?
    ensures PageRows(xs[..k], f).Ok?
    ensures |PageRows(xs[..k], f).value| < |PageRows(xs, f).value|
    ensures PageRows(xs, f).value[|PageRows(xs[..k], f).value|] == f(xs[k]).value.value
  {
    var n := |xs|;
    var front := xs[..n - 1];
    var rows := PageRows(front, f).value;
    var last := f(xs[n - 1]).value;
    var res := PageRows(xs, f).value;
    assert res == if last.Some? then rows + [last.value] else rows;
    if k == n - 1 {
      assert xs[..k] == front;
      assert res[|rows|] == last.value;
    } else {
      assert front[k] == xs[k];
      PageRowsAt(front, f, k);
      PrefixOfPrefix(xs, n - 1, k);
      var at := |PageRows(front[..k], f).value|;
      assert res[at] == rows[at];
    }
  }

  /** Every row of a page belongs to an item giving a row: row `i` to the
      item with `i` rows before it. */
  lemma {:induction false} PageRowIndex<T>(xs: seq<T>, f: T -> Result<Option<Row>>, i: nat)
    requires PageRows(xs, f).Ok? && i < |PageRows(xs, f).value|
    ensures exists k :: 0 <= k < |xs| && f(xs[k]).value.Some? && PageRows(xs[..k], f).Ok? && |PageRows(xs[..k], f).value| == i
  {
    var n := |xs|;
    var front := xs[..n - 1];
    var rows := PageRows(front, f).value;
    if i < |rows| {
      PageRowIndex(front, f, i);
      var k :| 0 <= k < |front| && f(front[k]).value.Some? && PageRows(front[..k], f).Ok? && |PageRows(front[..k], f).value| == i;
      PrefixOfPrefix(xs, n - 1, k);
      assert front[k] == xs[k];
    } else {
      assert xs[..n - 1] == front;
    }
  }

  /** An item satisfying `p` raises the count before every later position. */
  lemma {:induction false} CountGrows<T>(xs: seq<T>, p: T -> bool, a: nat, b: nat)
    requires a < b <= |xs| && p(xs[a])
    ensures Count(xs[..a], p) < Count(xs[..b], p)
    decreases b
  {
    assert xs[..b][..b - 1] == xs[..b - 1];
    if a < b - 1 {
      CountGrows(xs, p, a, b - 1);
    }
  }

  /** The rows of the games in page order; the first failing game raises. */
  function BracketRows(gs: seq<Game>): (r: Result<seq<Row>>)
    ensures r.Ok? <==> forall k :: 0 <= k < |gs| ==> GameRow(gs[k]).Ok?
    ensures r.Ok? ==> |r.value| == Yielded(gs)
  {
    PageRowsCount(gs, GameRow, Titled);
    PageRows(gs, GameRow)
  }

  /** `get_current_bracket`: one row per game naming a team, reindexed
      0..n-1. */
  function CurrentBracket(gs: seq<Game>): (r: Result<Table>)
    ensures r.Ok? <==> forall k :: 0 <= k < |gs| ==> GameRow(gs[k]).Ok?
    ensures r.Ok? ==> r.value.cols == BracketCols && |r.value.rows| == Yielded(gs)
  {
    var rows :- BracketRows(gs);
    Ok(Table(BracketCols, rows))
  }

  /** A game's row sits behind the rows of the games before it: the table
      keeps page order. */
  lemma BracketRowAt(gs: seq<Game>, k: nat)
    requires CurrentBracket(gs).Ok? && k < |gs| && |gs[k].titles| > 0
    ensures GameRow(gs[k]).Ok? && GameRow(gs[k]).value.Some?
    ensures Yielded(gs[..k]) < |CurrentBracket(gs).value.rows|
    ensures CurrentBracket(gs).value.rows[Yielded(gs[..k])] == GameRow(gs[k]).value.value
  {
    BracketRowsAt(gs, k);
  }

  lemma BracketRowsAt(gs: seq<Game>, k: nat)
    requires BracketRows(gs).Ok? && k < |gs| && |gs[k].titles| > 0
    ensures GameRow(gs[k]).Ok? && GameRow(gs[k]).value.Some?
    ensures Yielded(gs[..k]) < |BracketRows(gs).value|
    ensures BracketRows(gs).value[Yielded(gs[..k])] == GameRow(gs[k]).value.value
  {
    PageRowsAt(gs, GameRow, k);
    PageRowsCount(gs[..k], GameRow, Titled);
  }

  /** Seeds are read back from the game text: a text that spells seeds
      `a` and `b` between digit-free separators yields them in order. */
  lemma ReadCompleteGame(seps: seq<string>, a: nat, b: nat, x: string, y: string)
    requires |seps| == 3 && forall i :: 0 <= i < 3 ==> NoDigits(seps[i])
    requires |seps[1]| > 0
    ensures GameRow(Game(Render(seps, [a, b]), [x, y])) == Ok(Some(Matchup(Int(a), Str(x), Int(b), Str(y))))
  {
    DigitRunsRender(seps, [a, b]);
  }

  /** A first-round game waiting for a play-in winner becomes a row with a
      missing cell, which is where the winner is later written. */
  lemma ReadPlaceholderGame(seps: seq<string>, a: nat, x: string)
    requires |seps| == 2 && NoDigits(seps[0]) && NoDigits(seps[1])
    ensures GameRow(Game(Render(seps, [a]), [x])) == Ok(Some(Matchup(Int(a), Str(x), Int(0), Null)))
  {
    DigitRunsRender(seps, [a]);
  }

  // ---------------------------------------------------------------------------
  // get_rankings_data

  const Top25Col: Col := Name("Top_25")

  /** The rows of the ranking entries holding a team link, the `n`-th such
      row flagged as top 25 while fewer than 25 rows exist. */
  function RankRows(raw: seq<Option<string>>, n: nat): (r: seq<Row>)
    ensures |r| == Anchored(raw)
    ensures forall j :: 0 <= j < |r| ==> Get(r[j], Top25Col) == Int(if n + j < 25 then 1 else 0)
    ensures forall j :: 0 <= j < |r| ==> Get(r[j], TeamCol) == Str(Anchors(raw)[j])
  {
    if |raw| == 0 then []
    else
      match raw[0]
      case None => RankRows(raw[1..], n)
      case Some(team) =>
        var row := map[TeamCol := Str(team), Top25Col := Int(if n < 25 then 1 else 0)];
        [row] + RankRows(raw[1..], n + 1)
  }

  /** The link texts, in page order. */
  function Anchors(raw: seq<Option<string>>): (r: seq<string>)
    ensures |r| == Anchored(raw)
  {
    if |raw| == 0 then []
    else
      match raw[0]
      case None => Anchors(raw[1..])
      case Some(team) => [team] + Anchors(raw[1..])
  }

  function Anchored(raw: seq<Option<string>>): nat {
    if |raw| == 0 then 0 else (if raw[0].Some? then 1 else 0) + Anchored(raw[1..])
  }

  /** `get_rankings_data`: one row per ranking entry with a team link. */
  function Rankings(raw: seq<Option<string>>): (r: Table)
    ensures r.cols == [TeamCol, Top25Col] && |r.rows| == Anchored(raw)
  {
    Table([TeamCol, Top25Col], RankRows(raw, 0))
  }

  function Flagged(rows: seq<Row>): nat {
    if |rows| == 0 then 0 else (if Get(rows[0], Top25Col) == Int(1) then 1 else 0) + Flagged(rows[1..])
  }

  function Min(a: nat, b: nat): nat { if a <= b then a else b }

  /** Exactly the first `min(25, n)` teams are flagged. */
  lemma {:induction false} RankingsFlagTop25(raw: seq<Option<string>>, n: nat)
    ensures Flagged(RankRows(raw, n)) == if n >= 25 then 0 else Min(25 - n, Anchored(raw))
  {
    if |raw| > 0 {
      RankingsFlagTop25(raw[1..], if raw[0].Some? then n + 1 else n);
      var r := RankRows(raw, n);
      if raw[0].Some? {
        assert r[1..] == RankRows(raw[1..], n + 1);
      }
    }
  }

  // ---------------------------------------------------------------------------
  // get_coach_data

  /** A coaches-table row: the texts of its links, and the four career
      cells (`None` when the row has no such cell). */
  datatype CoachHtml = CoachHtml(links: seq<string>, mm: Option<string>, s16: Option<string>,
                                 f4: Option<string>, champs: Option<string>)

  const CoachCols: seq<Col> := [CoachTeamCol, Name("MM"), Name("S16"), Name("F4"), Name("Champs")]

  /** A row with links names its team by the second link; a missing link or
      cell raises as the attribute access would. */
  function CoachRow(h: CoachHtml): (r: Result<Option<Row>>)
    ensures r.Ok? ==> (r.value.Some? <==> |h.links| > 0)
    ensures |h.links| == 1 ==> r == Err(IndexError)
    ensures |h.links| >= 2 && (h.mm.None? || h.s16.None? || h.f4.None? || h.champs.None?) ==> r == Err(AttributeError)
    ensures r.Ok? && r.value.Some? ==> Get(r.value.value, CoachTeamCol) == Str(h.links[1])
  {
    if |h.links| == 0 then Ok(None)
    else if |h.links| < 2 then Err(IndexError)
    else if h.mm.None? || h.s16.None? || h.f4.None? || h.champs.None? then Err(AttributeError)
    else
      Ok(Some(map[CoachTeamCol := Str(h.links[1]), CoachCols[1] := Str(h.mm.value), CoachCols[2] := Str(h.s16.value),
                  CoachCols[3] := Str(h.f4.value), CoachCols[4] := Str(h.champs.value)]))
  }

  /** A coaches-table row with links names a team. */
  predicate HasLinks(h: CoachHtml) {
    |h.links| > 0
  }

  /** How many of the coaches-table rows have links, and so yield a row. */
  function Linked(hs: seq<CoachHtml>): (n: nat)
    ensures n <= |hs|
  {
    Count(hs, HasLinks)
  }

  /** The rows of the linked entries in page order; the first failing
      entry raises. */
  function CoachRows(hs: seq<CoachHtml>): (r: Result<seq<Row>>)
    ensures r.Ok? <==> forall k :: 0 <= k < |hs| ==> CoachRow(hs[k]).Ok?
    ensures r.Ok? ==> |r.value| == Linked(hs)
  {
    PageRowsCount(hs, CoachRow, HasLinks);
    PageRows(hs, CoachRow)
  }

  /** A linked entry's row sits behind the rows of the linked entries
      before it: the coach rows keep page order. */
  lemma CoachRowsAt(hs: seq<CoachHtml>, k: nat)
    requires CoachRows(hs).Ok? && k < |hs| && |hs[k].links| > 0
    ensures CoachRow(hs[k]).Ok? && CoachRow(hs[k]).value.Some?
    ensures Linked(hs[..k]) < |CoachRows(hs).value|
    ensures CoachRows(hs).value[Linked(hs[..k])] == CoachRow(hs[k]).value.value
  {
    PageRowsAt(hs, CoachRow, k);
    PageRowsCount(hs[..k], CoachRow, HasLinks);
  }

  /** Every coach row is the row of a linked entry: position `i` belongs to
      the entry with `i` linked entries before it. */
  lemma CoachRowIndex(hs: seq<CoachHtml>, i: nat)
    requires CoachRows(hs).Ok? && i < |CoachRows(hs).value|
    ensures exists k :: 0 <= k < |hs| && |hs[k].links| > 0 && Linked(hs[..k]) == i
  {
    PageRowIndex(hs, CoachRow, i);
    var k :| 0 <= k < |hs| && CoachRow(hs[k]).value.Some? && PageRows(hs[..k], CoachRow).Ok? && |PageRows(hs[..k], CoachRow).value| == i;
    PageRowsCount(hs[..k], CoachRow, HasLinks);
  }

  function CoachKey(row: Row): Value {
    Get(row, CoachTeamCol)
  }

  /** `get_coach_data`: the coach rows, one per team, each team keeping its
      last row. */
  function CoachData(hs: seq<CoachHtml>): (r: Result<Table>)
    ensures r.Ok? <==> forall k :: 0 <= k < |hs| ==> CoachRow(hs[k]).Ok?
    ensures r.Ok? ==> r.value.cols == CoachCols
    ensures r.Ok? ==> forall a, b :: 0 <= a < b < |r.value.rows| ==> CoachKey(r.value.rows[a]) != CoachKey(r.value.rows[b])
    ensures r.Ok? ==> forall x :: x in CoachRows(hs).value ==> exists j :: 0 <= j < |r.value.rows| && CoachKey(r.value.rows[j]) == CoachKey(x)
  {
    var rows :- CoachRows(hs);
    Ok(Table(CoachCols, KeepLast(rows, CoachKey)))
  }

  /** Every kept row is the last scraped row of its team. */
  lemma CoachKeepsLast(hs: seq<CoachHtml>, j: nat)
    requires CoachData(hs).Ok? && j < |CoachData(hs).value.rows|
    ensures exists i :: LastOfKey(CoachRows(hs).value, CoachKey, CoachData(hs).value.rows[j], i)
  {
    var rows := CoachRows(hs).value;
    assert CoachData(hs).value.rows == KeepLast(rows, CoachKey);
    KeepLastAt(rows, CoachKey, j);
  }

  /** Every kept row is the row of a scraped entry that no later entry
      names the same team as: `keep='last'` keeps each team's last entry
      on the page. */
  lemma CoachKeepsLastEntry(hs: seq<CoachHtml>, j: nat)
    requires CoachData(hs).Ok? && j < |CoachData(hs).value.rows|
    ensures exists k :: (0 <= k < |hs| && |hs[k].links| > 1
      && CoachRow(hs[k]) == Ok(Some(CoachData(hs).value.rows[j]))
      && forall k' :: k < k' < |hs| && |hs[k'].links| > 1 ==> hs[k'].links[1] != hs[k].links[1])
  {
    var x := CoachData(hs).value.rows[j];
    var k := LastEntryOf(hs, j);
    forall k' | k < k' < |hs| && |hs[k'].links| > 1
      ensures hs[k'].links[1] != hs[k].links[1]
    {
      LaterEntryDiffers(hs, x, k, k');
    }
  }

  /** The page entry whose row is kept row `j`. */
  lemma LastEntryOf(hs: seq<CoachHtml>, j: nat) returns (k: nat)
    requires CoachData(hs).Ok? && j < |CoachData(hs).value.rows|
    ensures k < |hs| && |hs[k].links| > 1
    ensures CoachRow(hs[k]) == Ok(Some(CoachData(hs).value.rows[j]))
    ensures LastOfKey(CoachRows(hs).value, CoachKey, CoachData(hs).value.rows[j], Linked(hs[..k]))
  {
    var rows := CoachRows(hs).value;
    var x := CoachData(hs).value.rows[j];
    CoachKeepsLast(hs, j);
    var i :| LastOfKey(rows, CoachKey, x, i);
    CoachRowIndex(hs, i);
    k :| 0 <= k < |hs| && |hs[k].links| > 0 && Linked(hs[..k]) == i;
    CoachRowsAt(hs, k);
  }

  /** A linked entry after the one holding coach row `x`, with `x` the last
      of its team among the coach rows, names another team. */
  lemma LaterEntryDiffers(hs: seq<CoachHtml>, x: Row, k: nat, k': nat)
    requires CoachRows(hs).Ok? && k < k' < |hs| && |hs[k].links| > 1 && |hs[k'].links| > 1
    requires LastOfKey(CoachRows(hs).value, CoachKey, x, Linked(hs[..k]))
    requires CoachRow(hs[k]) == Ok(Some(x))
    ensures hs[k'].links[1] != hs[k].links[1]
  {
    CoachRowsAt(hs, k');
    CountGrows(hs, HasLinks, k, k');
    assert CoachKey(CoachRows(hs).value[Linked(hs[..k'])]) != CoachKey(x);
  }

  // ---------------------------------------------------------------------------
  // get_null_rows

  const YearCol: Col := Name("Year")

  predicate NullIn(fills: seq<Col>, row: Row) {
    exists c :: c in fills && Get(row, c) == Null
  }

  /** `get_null_rows`: the rows with a missing cell under one of `fills`,
      cut to `Year` and `fills`. */
  function NullRowsOf(fills: seq<Col>, t: Table): (r: Result<Table>)
    ensures (exists c :: c in fills && c !in t.cols) ==> r.Err? && r.error.KeyError?
    ensures r.Ok? ==> r.value.cols == [YearCol] + fills
    ensures r.Ok? ==> forall j :: 0 <= j < |r.value.rows| ==> NullIn(fills, r.value.rows[j])
    ensures r.Ok? ==> var kept := FilterRows(t.rows, row => NullIn(fills, row));
      && |r.value.rows| == |kept|
      && forall j, c :: 0 <= j < |kept| && c in [YearCol] + fills ==> Get(r.value.rows[j], c) == Get(kept[j], c)
  {
    var _ :- Need(t.cols, fills);
    var kept := FilterRows(t.rows, row => NullIn(fills, row));
    var r :- Select(Table(t.cols, kept), [YearCol] + fills);
    assert forall j :: 0 <= j < |kept| ==> kept[j] in kept;
    Ok(r)
  }

  // ---------------------------------------------------------------------------
  // get_feature_null_counts

  /** Missing cells of column `c`. */
  function NullCount(rows: seq<Row>, c: Col): (n: nat)
    ensures n <= |rows|
  {
    if |rows| == 0 then 0 else (if Get(rows[0], c) == Null then 1 else 0) + NullCount(rows[1..], c)
  }

  /** The columns with at least one missing cell, with their counts, in
      label order. */
  function Positive(cols: seq<Col>, rows: seq<Row>): (r: seq<(Col, nat)>)
    ensures forall x :: x in r <==> x.0 in cols && x.1 == NullCount(rows, x.0) && x.1 > 0
  {
    if |cols| == 0 then []
    else
      var n := NullCount(rows, cols[0]);
      (if n > 0 then [(cols[0], n)] else []) + Positive(cols[1..], rows)
  }

  predicate Descending(s: seq<(Col, nat)>) {
    forall a, b :: 0 <= a < b < |s| ==> s[a].1 >= s[b].1
  }

  /** `x` placed after every entry with a count at least its own. */
  function Insert(x: (Col, nat), s: seq<(Col, nat)>): (r: seq<(Col, nat)>)
    requires Descending(s)
    ensures Descending(r) && multiset(r) == multiset(s) + multiset{x}
    ensures |r| == |s| + 1 && (r[0] == x || (|s| > 0 && r[0] == s[0]))
  {
    if |s| == 0 then [x]
    else if s[0].1 >= x.1 then
      var rest := Insert(x, s[1..]);
      PrependDescending(s[0], rest);
      assert s == [s[0]] + s[1..];
      [s[0]] + rest
    else
      [x] + s
  }

  lemma PrependDescending(y: (Col, nat), s: seq<(Col, nat)>)
    requires Descending(s) && (|s| > 0 ==> s[0].1 <= y.1)
    ensures Descending([y] + s)
  {
    var r := [y] + s;
    forall a, b | 0 <= a < b < |r|
      ensures r[a].1 >= r[b].1
    {
      if a == 0 {
        assert r[b] == s[b - 1];
      }
    }
  }

  function SortDescending(s: seq<(Col, nat)>): (r: seq<(Col, nat)>)
    ensures Descending(r) && multiset(r) == multiset(s)
  {
    if |s| == 0 then []
    else
      assert s == [s[0]] + s[1..];
      Insert(s[0], SortDescending(s[1..]))
  }

  lemma SameMembers<T>(a: seq<T>, b: seq<T>)
    requires multiset(a) == multiset(b)
    ensures forall x :: x in a <==> x in b
  {
    forall x ensures x in a <==> x in b {
      assert x in a <==> x in multiset(a);
      assert x in b <==> x in multiset(b);
    }
  }

  /** `get_feature_null_counts`: every column with missing cells and its
      count, largest first. */
  function FeatureNullCounts(t: Table): (r: seq<(Col, nat)>)
    ensures Descending(r)
    ensures forall x :: x in r ==> x.0 in t.cols && x.1 == NullCount(t.rows, x.0) && x.1 > 0
    ensures forall c :: c in t.cols && NullCount(t.rows, c) > 0 ==> (c, NullCount(t.rows, c)) in r
    ensures multiset(r) == multiset(Positive(t.cols, t.rows))
  {
    var p := Positive(t.cols, t.rows);
    var r := SortDescending(p);
    SameMembers(r, p);
    r
  }
}
