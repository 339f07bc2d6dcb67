/** `pd.merge` as an inner join on one key column per side, and the four
    joins of the pipeline built from it.

    Output rows come left row by left row, each followed by its matching
    right rows in right order. Labels present on both sides (other than a
    key shared by name) take the two suffixes; a suffix that produces a
    label already present is a MergeError. */
module Merge {

  import opened Results
  import opened Text
  import opened Tables

  /** Key cells match when equal; numbers match across int and float. */
  predicate KeyEq(a: Value, b: Value) {
    a == b || (AsReal(a).Some? && AsReal(a) == AsReal(b))
  }

  /** The suffixes `pd.merge` appends to overlapping labels. */
  datatype Suffixes = Suffixes(left: Role, right: Role)

  const DefaultSuffixes: Suffixes := Suffixes(LeftDup, RightDup)

  /** A join: key columns and suffixes. */
  datatype On = On(lk: Col, rk: Col, sfx: Suffixes)

  /** The right rows whose key matches `k`, in order. */
  function Partners(ys: seq<Row>, rk: Col, k: Value): (r: seq<Row>)
    ensures |r| == Count(ys, rk, k)
    ensures forall y :: y in r <==> y in ys && KeyEq(k, Get(y, rk))
  {
    if |ys| == 0 then []
    else (if KeyEq(k, Get(ys[0], rk)) then [ys[0]] else []) + Partners(ys[1..], rk, k)
  }

  /** How many right rows match `k`. */
  function Count(ys: seq<Row>, rk: Col, k: Value): nat {
    if |ys| == 0 then 0 else (if KeyEq(k, Get(ys[0], rk)) then 1 else 0) + Count(ys[1..], rk, k)
  }

  /** How many output rows the left rows `xs` produce. */
  function Matched(xs: seq<Row>, ys: seq<Row>, lk: Col, rk: Col): nat {
    if |xs| == 0 then 0 else Count(ys, rk, Get(xs[0], lk)) + Matched(xs[1..], ys, lk, rk)
  }

  /** Labels on both sides that get suffixed. */
  function Overlap(lc: seq<Col>, rc: seq<Col>, j: On): (r: seq<Col>)
    ensures forall c :: c in r <==> c in lc && c in rc && !(j.lk == j.rk && c == j.lk)
  {
    if |lc| == 0 then []
    else (if lc[0] in rc && !(j.lk == j.rk && lc[0] == j.lk) then [lc[0]] else []) + Overlap(lc[1..], rc, j)
  }

  function Relabel(cs: seq<Col>, ov: seq<Col>, role: Role): (r: seq<Col>)
    ensures |r| == |cs|
    ensures forall k :: 0 <= k < |cs| ==> r[k] == if cs[k] in ov then Side(cs[k], role) else cs[k]
  {
    MapSeq(cs, c => if c in ov then Side(c, role) else c)
  }

  /** The right labels carried into the output: a key shared by name
      appears once, from the left. */
  function RightSource(lc: seq<Col>, rc: seq<Col>, j: On): seq<Col> {
    if j.lk == j.rk then Without(rc, [j.rk]) else rc
  }

  function LeftOut(lc: seq<Col>, rc: seq<Col>, j: On): seq<Col> {
    Relabel(lc, Overlap(lc, rc, j), j.sfx.left)
  }

  function RightOut(lc: seq<Col>, rc: seq<Col>, j: On): seq<Col> {
    Relabel(RightSource(lc, rc, j), Overlap(lc, rc, j), j.sfx.right)
  }

  /** The cells of `row` under `src` written under `dst`. */
  function CopyCells(row: Row, src: seq<Col>, dst: seq<Col>): (r: Row)
    requires |src| == |dst| && Distinct(dst)
    ensures forall k :: 0 <= k < |dst| ==> Get(r, dst[k]) == Get(row, src[k])
    ensures forall c :: c in r <==> c in dst
  {
    if |src| == 0 then map[]
    else
      var rest := CopyCells(row, src[1..], dst[1..]);
      assert forall k :: 1 <= k < |dst| ==> dst[k] == dst[1..][k - 1] && dst[k] != dst[0];
      assert forall c :: c in dst <==> c == dst[0] || c in dst[1..];
      rest[dst[0] := Get(row, src[0])]
  }

  /** Where each side's cells go: the cells under `ls` of a left row are
      written under `lo`, those under `rs` of a right row under `ro`. */
  datatype Plan = Plan(ls: seq<Col>, lo: seq<Col>, rs: seq<Col>, ro: seq<Col>)

  predicate Valid(p: Plan) {
    |p.ls| == |p.lo| && |p.rs| == |p.ro| && Distinct(p.lo + p.ro)
  }

  function Labels(p: Plan): seq<Col> {
    p.lo + p.ro
  }

  function MakePlan(lc: seq<Col>, rc: seq<Col>, j: On): (p: Plan)
    ensures |p.ls| == |p.lo| && |p.rs| == |p.ro|
    ensures p.ls == lc && p.rs == RightSource(lc, rc, j)
    ensures p.lo == LeftOut(lc, rc, j) && p.ro == RightOut(lc, rc, j)
  {
    Plan(lc, LeftOut(lc, rc, j), RightSource(lc, rc, j), RightOut(lc, rc, j))
  }

  lemma DistinctSplit(a: seq<Col>, b: seq<Col>)
    requires Distinct(a + b)
    ensures Distinct(a) && Distinct(b)
    ensures forall c :: c in a ==> c !in b
  {
    assert forall i :: 0 <= i < |a| ==> a[i] == (a + b)[i];
    assert forall i :: 0 <= i < |b| ==> b[i] == (a + b)[|a| + i];
  }

  /** One output row: the left row's cells under the left labels, then the
      right row's under the right labels. */
  function JoinRows(p: Plan, x: Row, y: Row): (r: Row)
    requires Valid(p)
    ensures forall k :: 0 <= k < |p.lo| ==> Get(r, p.lo[k]) == Get(x, p.ls[k])
    ensures forall k :: 0 <= k < |p.ro| ==> Get(r, p.ro[k]) == Get(y, p.rs[k])
    ensures forall c :: c in r <==> c in p.lo + p.ro
  {
    DistinctSplit(p.lo, p.ro);
    CopyCells(x, p.ls, p.lo) + CopyCells(y, p.rs, p.ro)
  }

  /** Left-row-major pairing of matching rows, each pair combined by `f`. */
  function Pairs(xs: seq<Row>, ys: seq<Row>, lk: Col, rk: Col, p: Plan): (r: seq<Row>)
    requires Valid(p)
    ensures |r| == Matched(xs, ys, lk, rk)
    ensures forall z :: z in r <==> exists x, y :: x in xs && y in ys && KeyEq(Get(x, lk), Get(y, rk)) && z == JoinRows(p, x, y)
  {
    if |xs| == 0 then []
    else
      var x := xs[0];
      var head := MapSeq(Partners(ys, rk, Get(x, lk)), y => JoinRows(p, x, y));
      var rest := Pairs(xs[1..], ys, lk, rk, p);
      assert forall z :: z in head <==> exists y :: y in ys && KeyEq(Get(x, lk), Get(y, rk)) && z == JoinRows(p, x, y) by {
        forall z | z in head
          ensures exists y :: y in ys && KeyEq(Get(x, lk), Get(y, rk)) && z == JoinRows(p, x, y)
        {
          var k :| 0 <= k < |head| && head[k] == z;
          assert Partners(ys, rk, Get(x, lk))[k] in Partners(ys, rk, Get(x, lk));
        }
        forall z, y | y in ys && KeyEq(Get(x, lk), Get(y, rk)) && z == JoinRows(p, x, y)
          ensures z in head
        {
          var p := Partners(ys, rk, Get(x, lk));
          var k :| 0 <= k < |p| && p[k] == y;
          assert head[k] == z;
        }
      }
      assert forall x' :: x' in xs <==> x' == x || x' in xs[1..];
      head + rest
  }

  /** `pd.merge(l, r, left_on=lk, right_on=rk, suffixes=sfx)`. */
  function MergeTables(l: Table, r: Table, j: On): (res: Result<Table>)
    ensures res.Ok? <==> j.lk in l.cols && j.rk in r.cols && Distinct(Labels(MakePlan(l.cols, r.cols, j)))
    ensures j.lk !in l.cols ==> res == Err(KeyError(Spell(j.lk)))
    ensures j.lk in l.cols && j.rk !in r.cols ==> res == Err(KeyError(Spell(j.rk)))
    ensures j.lk in l.cols && j.rk in r.cols && !Distinct(Labels(MakePlan(l.cols, r.cols, j))) ==>
      res == Err(MergeError)
    ensures res.Ok? ==> res.value.cols == LeftOut(l.cols, r.cols, j) + RightOut(l.cols, r.cols, j)
    ensures res.Ok? ==> |res.value.rows| == Matched(l.rows, r.rows, j.lk, j.rk)
  {
    var _ :- Need(l.cols, [j.lk]);
    var _ :- Need(r.cols, [j.rk]);
    var p := MakePlan(l.cols, r.cols, j);
    if !Distinct(Labels(p)) then Err(MergeError)
    else Ok(Table(Labels(p), Pairs(l.rows, r.rows, j.lk, j.rk, p)))
  }

  /** Every output row joins a left row and a right row with matching keys,
      and every such pair yields an output row. */
  lemma MergeRowsAreMatches(l: Table, r: Table, j: On, z: Row)
    requires MergeTables(l, r, j).Ok?
    ensures Valid(MakePlan(l.cols, r.cols, j))
    ensures z in MergeTables(l, r, j).value.rows <==>
      exists x, y :: x in l.rows && y in r.rows && KeyEq(Get(x, j.lk), Get(y, j.rk)) && z == JoinRows(MakePlan(l.cols, r.cols, j), x, y)
  {}

  /** An unmatched left row contributes nothing; it does not raise. */
  lemma UnmatchedContributesNothing(xs: seq<Row>, ys: seq<Row>, lk: Col, rk: Col, x: Row)
    requires Count(ys, rk, Get(x, lk)) == 0
    ensures Matched(xs + [x], ys, lk, rk) == Matched(xs, ys, lk, rk)
  {
    MatchedAppend(xs, [x], ys, lk, rk);
  }

  lemma {:induction false} MatchedAppend(a: seq<Row>, b: seq<Row>, ys: seq<Row>, lk: Col, rk: Col)
    ensures Matched(a + b, ys, lk, rk) == Matched(a, ys, lk, rk) + Matched(b, ys, lk, rk)
    decreases |a|
  {
    if |a| == 0 {
      assert a + b == b;
    } else {
      assert (a + b)[0] == a[0];
      assert (a + b)[1..] == a[1..] + b;
      MatchedAppend(a[1..], b, ys, lk, rk);
    }
  }

  /** With no label on both sides, nothing is suffixed. */
  lemma {:induction false} NoOverlapNoSuffix(lc: seq<Col>, rc: seq<Col>, j: On)
    requires forall c :: c in lc && c in rc ==> j.lk == j.rk && c == j.lk
    ensures LeftOut(lc, rc, j) == lc
    ensures RightOut(lc, rc, j) == RightSource(lc, rc, j)
  {
    var ov := Overlap(lc, rc, j);
    assert forall c :: c !in ov;
    assert forall k :: 0 <= k < |lc| ==> LeftOut(lc, rc, j)[k] == lc[k];
    assert forall k :: 0 <= k < |RightSource(lc, rc, j)| ==> RightOut(lc, rc, j)[k] == RightSource(lc, rc, j)[k];
  }

  // ---------------------------------------------------------------------------
  // The pipeline's joins

  /** The scraper tags tournament teams' names with " NCAA". */
  const NcaaTag: string := " NCAA"

  predicate TaggedCell(v: Value) {
    v.Str? && Contains(v.s, "NCAA")
  }

  predicate AnyTagged(vs: seq<Value>) {
    exists i :: 0 <= i < |vs| && TaggedCell(vs[i])
  }

  /** `school[:-5]` on every cell; a cell that is not text raises TypeError. */
  function CutTags(vs: seq<Value>): (r: Result<seq<Value>>)
    ensures r.Ok? <==> forall i :: 0 <= i < |vs| ==> vs[i].Str?
    ensures r.Err? ==> r == Err(TypeError)
    ensures r.Ok? ==> |r.value| == |vs| && forall i :: 0 <= i < |vs| ==> r.value[i] == Str(DropLast(vs[i].s, |NcaaTag|))
  {
    if |vs| == 0 then Ok([])
    else if !vs[0].Str? then Err(TypeError)
    else
      var rest :- CutTags(vs[1..]);
      Ok([Str(DropLast(vs[0].s, |NcaaTag|))] + rest)
  }

  /** Cutting five characters undoes the scraper's tag. */
  lemma CutUndoesTag(name: string)
    ensures DropLast(name + NcaaTag, |NcaaTag|) == name
    ensures TaggedCell(Str(name + NcaaTag))
  {
    var s := name + NcaaTag;
    assert s[|name|..] == NcaaTag;
    assert s[..|name|] == name;
    TagContains(name);
  }

  lemma {:induction false} TagContains(name: string)
    ensures Contains(name + NcaaTag, "NCAA")
    decreases |name|
  {
    if |name| == 0 {
      assert NcaaTag[1..] == "NCAA";
      assert "NCAA" <= NcaaTag[1..];
    } else {
      assert (name + NcaaTag)[1..] == name[1..] + NcaaTag;
      TagContains(name[1..]);
    }
  }

  /** The School clean-up of `merge_clean_team_stats`. */
  function StripTags(t: Table): (r: Result<Table>)
    ensures SchoolCol !in t.cols ==> r == Err(KeyError(Spell(SchoolCol)))
    ensures SchoolCol in t.cols && NoText(Column(t, SchoolCol)) ==> r == Err(AttributeError)
    ensures SchoolCol in t.cols && !NoText(Column(t, SchoolCol)) && !AnyTagged(Column(t, SchoolCol)) ==> r == Ok(t)
    ensures r.Ok? && AnyTagged(Column(t, SchoolCol)) ==>
      r.value.cols == t.cols && |r.value.rows| == |t.rows| &&
      forall i :: 0 <= i < |t.rows| ==>
        Get(t.rows[i], SchoolCol).Str? &&
        r.value.rows[i] == t.rows[i][SchoolCol := Str(DropLast(Get(t.rows[i], SchoolCol).s, |NcaaTag|))]
    ensures SchoolCol in t.cols && AnyTagged(Column(t, SchoolCol)) ==>
      (r.Ok? <==> forall i :: 0 <= i < |t.rows| ==> Get(t.rows[i], SchoolCol).Str?)
  {
    var col :- Lookup(t, SchoolCol);
    if NoText(col) then Err(AttributeError)
    else if !AnyTagged(col) then Ok(t)
    else
      var cut :- CutTags(col);
      Ok(Assign(t, SchoolCol, cut))
  }

  /** `merge_clean_team_stats`. */
  function MergeTeamStats(basic: Table, adv: Table): (r: Result<Table>)
    ensures r.Ok? ==> MergeTables(basic, adv, On(SchoolCol, SchoolCol, DefaultSuffixes)).Ok?
    ensures r.Ok? ==> r.value.cols == MergeTables(basic, adv, On(SchoolCol, SchoolCol, DefaultSuffixes)).value.cols
    ensures r.Ok? ==> |r.value.rows| == Matched(basic.rows, adv.rows, SchoolCol, SchoolCol)
  {
    var t :- MergeTables(basic, adv, On(SchoolCol, SchoolCol, DefaultSuffixes));
    StripTags(t)
  }

  /** `merge_clean_rankings`: join on School = Team, then drop Team. */
  function MergeRankings(stats: Table, rankings: Table): (r: Result<Table>)
    ensures r.Ok? ==> MergeTables(stats, rankings, On(SchoolCol, TeamCol, DefaultSuffixes)).Ok?
    ensures r.Ok? ==> r.value.cols == Without(MergeTables(stats, rankings, On(SchoolCol, TeamCol, DefaultSuffixes)).value.cols, [TeamCol])
    ensures r.Ok? ==> |r.value.rows| == Matched(stats.rows, rankings.rows, SchoolCol, TeamCol)
  {
    var t :- MergeTables(stats, rankings, On(SchoolCol, TeamCol, DefaultSuffixes));
    Drop(t, [TeamCol])
  }

  /** `merge_clean_coaches`: join on School = Coach_Team, then drop
      Coach_Team. */
  function MergeCoaches(stats: Table, coaches: Table): (r: Result<Table>)
    ensures r.Ok? ==> MergeTables(stats, coaches, On(SchoolCol, CoachTeamCol, DefaultSuffixes)).Ok?
    ensures r.Ok? ==> r.value.cols == Without(MergeTables(stats, coaches, On(SchoolCol, CoachTeamCol, DefaultSuffixes)).value.cols, [CoachTeamCol])
    ensures r.Ok? ==> |r.value.rows| == Matched(stats.rows, coaches.rows, SchoolCol, CoachTeamCol)
  {
    var t :- MergeTables(stats, coaches, On(SchoolCol, CoachTeamCol, DefaultSuffixes));
    Drop(t, [CoachTeamCol])
  }

  const FavoriteJoin: On := On(Fav("Team"), SchoolCol, DefaultSuffixes)
  const UnderdogJoin: On := On(Und("Team"), SchoolCol, Suffixes(Favorite, Underdog))

  /** The favourites' season data beside each matchup. */
  function MergeFavorites(mm: Table, season: Table): (r: Result<Table>)
    ensures r.Ok? ==> MergeTables(mm, season, FavoriteJoin).Ok?
    ensures r.Ok? ==> r.value.cols == Without(MergeTables(mm, season, FavoriteJoin).value.cols, [SchoolCol])
  {
    var t :- MergeTables(mm, season, FavoriteJoin);
    Drop(t, [SchoolCol])
  }

  /** `merge_clean_tourney_games`: both teams' season data beside each
      matchup, the overlapping statistics suffixed by role. */
  function MergeTourneyGames(mm: Table, season: Table): (r: Result<Table>)
    ensures r.Ok? ==> MergeFavorites(mm, season).Ok?
    ensures r.Ok? ==> MergeTables(MergeFavorites(mm, season).value, season, UnderdogJoin).Ok?
    ensures r.Ok? ==> r.value.cols == Without(MergeTables(MergeFavorites(mm, season).value, season, UnderdogJoin).value.cols, [SchoolCol])
  {
    var fav :- MergeFavorites(mm, season);
    var t :- MergeTables(fav, season, UnderdogJoin);
    Drop(t, [SchoolCol])
  }

  // ---------------------------------------------------------------------------
  // How many rows the tournament join yields

  /** For each left row, its matches on `lk`/`rk` in `ys` times its matches
      on `c`/`rk2` in `zs`. */
  function ProductSum(xs: seq<Row>, ys: seq<Row>, lk: Col, rk: Col, c: Col, zs: seq<Row>, rk2: Col): nat {
    if |xs| == 0 then 0
    else Count(ys, rk, Get(xs[0], lk)) * Count(zs, rk2, Get(xs[0], c)) + ProductSum(xs[1..], ys, lk, rk, c, zs, rk2)
  }

  lemma {:induction false} MatchedConst(hs: seq<Row>, zs: seq<Row>, c: Col, rk: Col, v: Value)
    requires forall i :: 0 <= i < |hs| ==> Get(hs[i], c) == v
    ensures Matched(hs, zs, c, rk) == |hs| * Count(zs, rk, v)
  {
    if |hs| > 0 {
      MatchedConst(hs[1..], zs, c, rk, v);
    }
  }

  lemma {:induction false} MatchedSameKeys(a: seq<Row>, b: seq<Row>, c: Col, zs: seq<Row>, rk: Col)
    requires |a| == |b|
    requires forall i :: 0 <= i < |a| ==> Get(a[i], c) == Get(b[i], c)
    ensures Matched(a, zs, c, rk) == Matched(b, zs, c, rk)
  {
    if |a| > 0 {
      MatchedSameKeys(a[1..], b[1..], c, zs, rk);
    }
  }

  /** Joining the paired rows again on a label carried over from the left
      counts, per left row, the product of its two match counts. */
  lemma {:induction false} MatchedPairs(xs: seq<Row>, ys: seq<Row>, lk: Col, rk: Col, p: Plan, k: nat, zs: seq<Row>, rk2: Col)
    requires Valid(p) && k < |p.lo|
    ensures Matched(Pairs(xs, ys, lk, rk, p), zs, p.lo[k], rk2) == ProductSum(xs, ys, lk, rk, p.ls[k], zs, rk2)
  {
    if |xs| > 0 {
      var x := xs[0];
      var ps := Partners(ys, rk, Get(x, lk));
      var head := MapSeq(ps, y => JoinRows(p, x, y));
      assert Pairs(xs, ys, lk, rk, p) == head + Pairs(xs[1..], ys, lk, rk, p);
      MatchedAppend(head, Pairs(xs[1..], ys, lk, rk, p), zs, p.lo[k], rk2);
      JoinedMatched(p, x, ps, head, k, zs, rk2);
      MatchedPairs(xs[1..], ys, lk, rk, p, k, zs, rk2);
    }
  }

  /** The rows joined from one left row all carry its cell under a left
      label, so each meets the same number of partners. */
  lemma JoinedMatched(p: Plan, x: Row, ps: seq<Row>, head: seq<Row>, k: nat, zs: seq<Row>, rk2: Col)
    requires Valid(p) && k < |p.lo| && |head| == |ps|
    requires forall i :: 0 <= i < |ps| ==> head[i] == JoinRows(p, x, ps[i])
    ensures Matched(head, zs, p.lo[k], rk2) == |ps| * Count(zs, rk2, Get(x, p.ls[k]))
  {
    forall i | 0 <= i < |head|
      ensures Get(head[i], p.lo[k]) == Get(x, p.ls[k])
    {
      assert head[i] == JoinRows(p, x, ps[i]);
    }
    MatchedConst(head, zs, p.lo[k], rk2, Get(x, p.ls[k]));
  }

  /** The underdog's label reaches the favourites' join unsuffixed, at its
      own position. */
  lemma UnderdogLabelCarried(mm: Table, season: Table) returns (k: nat)
    requires MergeFavorites(mm, season).Ok? && Und("Team") in MergeFavorites(mm, season).value.cols
    requires Und("Team") !in season.cols
    ensures Valid(MakePlan(mm.cols, season.cols, FavoriteJoin))
    ensures k < |mm.cols| && LeftOut(mm.cols, season.cols, FavoriteJoin)[k] == Und("Team") && mm.cols[k] == Und("Team")
  {
    var ut := Und("Team");
    var p := MakePlan(mm.cols, season.cols, FavoriteJoin);
    assert ut in p.lo + p.ro;
    assert ut !in p.ro by {
      forall i | 0 <= i < |p.ro|
        ensures p.ro[i] != ut
      {
        assert p.rs[i] in season.cols;
      }
    }
    k :| 0 <= k < |p.lo| && p.lo[k] == ut;
  }

  /** The tournament join has one row per matchup and pair of season rows
      matching its favourite and its underdog. */
  lemma TourneyRowCount(mm: Table, season: Table)
    requires MergeTourneyGames(mm, season).Ok?
    requires Und("Team") !in season.cols
    ensures |MergeTourneyGames(mm, season).value.rows| ==
      ProductSum(mm.rows, season.rows, Fav("Team"), SchoolCol, Und("Team"), season.rows, SchoolCol)
  {
    var ut := Und("Team");
    var t1 := MergeTables(mm, season, FavoriteJoin).value;
    var fav := MergeFavorites(mm, season).value;
    var p := MakePlan(mm.cols, season.cols, FavoriteJoin);
    var k := UnderdogLabelCarried(mm, season);
    MatchedPairs(mm.rows, season.rows, Fav("Team"), SchoolCol, p, k, season.rows, SchoolCol);
    MatchedSameKeys(fav.rows, t1.rows, ut, season.rows, SchoolCol);
  }
}
