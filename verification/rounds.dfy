/** The bookkeeping between bracket rounds: the labels a round's matchups
    go back to, the dedupe of a round's predictions, the play-in fill of
    the first round and the assembly of the finished bracket. */
module Rounds {
  import opened Results
  import opened Tables
  import opened Dedupe
  import opened Features

  // ---------------------------------------------------------------------------
  // clean_round_cols

  /** A dictionary of renames: each label is moved under the target of the
      first pair whose source it is. */
  function Renamed(ps: seq<(Col, Col)>, c: Col): Col {
    if |ps| == 0 then c else if ps[0].0 == c then ps[0].1 else Renamed(ps[1..], c)
  }

  function Sources(ps: seq<(Col, Col)>): (r: seq<Col>)
    ensures |r| == |ps| && forall k :: 0 <= k < |ps| ==> r[k] == ps[k].0
  {
    MapSeq(ps, (p: (Col, Col)) => p.0)
  }

  function Targets(ps: seq<(Col, Col)>): (r: seq<Col>)
    ensures |r| == |ps| && forall k :: 0 <= k < |ps| ==> r[k] == ps[k].1
  {
    MapSeq(ps, (p: (Col, Col)) => p.1)
  }

  /** A rename dictionary whose targets are fresh: no label is both moved
      and a destination, and no two labels share one. */
  predicate Renames(ps: seq<(Col, Col)>) {
    && Distinct(Sources(ps)) && Distinct(Targets(ps))
    && forall k, m :: 0 <= k < |ps| && 0 <= m < |ps| ==> ps[k].0 != ps[m].1
  }

  /** Two labels would collide under the renames. */
  predicate Clash(ps: seq<(Col, Col)>, cols: seq<Col>) {
    exists k :: 0 <= k < |ps| && ps[k].0 in cols && ps[k].1 in cols
  }

  /** `df.rename(columns=dict(ps))`, one pair at a time. */
  function RenameEach(t: Table, ps: seq<(Col, Col)>): (r: Result<Table>)
    ensures r.Ok? ==> |r.value.rows| == |t.rows|
    decreases |ps|
  {
    if |ps| == 0 then Ok(t)
    else
      var u :- RenameCol(t, ps[0].0, ps[0].1);
      RenameEach(u, ps[1..])
  }

  lemma RenamedTail(ps: seq<(Col, Col)>, c: Col)
    requires Renames(ps) && |ps| > 0
    ensures Renames(ps[1..])
    ensures c == ps[0].0 ==> Renamed(ps[1..], ps[0].1) == ps[0].1
    ensures c != ps[0].0 ==> Renamed(ps[1..], c) == Renamed(ps, c)
  {
    assert Sources(ps[1..]) == Sources(ps)[1..];
    assert Targets(ps[1..]) == Targets(ps)[1..];
    if c == ps[0].0 {
      RenamedFresh(ps[1..], ps[0].1);
    }
  }

  /** A label that is no source stays where it is. */
  lemma {:induction false} RenamedFresh(ps: seq<(Col, Col)>, c: Col)
    requires forall k :: 0 <= k < |ps| ==> ps[k].0 != c
    ensures Renamed(ps, c) == c
  {
    if |ps| > 0 {
      RenamedFresh(ps[1..], c);
    }
  }

  /** Renaming pair by pair fails exactly when some source and its target
      are both present, and otherwise moves every label under its target,
      cells included. */
  lemma {:induction false} RenameEachMaps(t: Table, ps: seq<(Col, Col)>)
    requires Renames(ps)
    ensures RenameEach(t, ps).Ok? <==> !Clash(ps, t.cols)
    ensures RenameEach(t, ps).Ok? ==> var cols := RenameEach(t, ps).value.cols;
      |cols| == |t.cols| && forall i :: 0 <= i < |t.cols| ==> cols[i] == Renamed(ps, t.cols[i])
    ensures RenameEach(t, ps).Ok? ==> forall i, c :: 0 <= i < |t.rows| && c in t.cols ==>
      Get(RenameEach(t, ps).value.rows[i], Renamed(ps, c)) == Get(t.rows[i], c)
    decreases |ps|
  {
    if |ps| > 0 {
      var a, b := ps[0].0, ps[0].1;
      var step := RenameCol(t, a, b);
      RenamedTail(ps, a);
      if step.Err? {
        assert Clash(ps, t.cols) by { assert ps[0].0 in t.cols && ps[0].1 in t.cols; }
      } else {
        var u := step.value;
        RenameEachMaps(u, ps[1..]);
        assert Clash(ps[1..], u.cols) <==> Clash(ps, t.cols) by {
          ClashStep(t, ps);
        }
        if RenameEach(t, ps).Ok? {
          var r := RenameEach(t, ps).value;
          forall i | 0 <= i < |t.cols|
            ensures r.cols[i] == Renamed(ps, t.cols[i])
          {
            RenamedTail(ps, t.cols[i]);
          }
          forall i, c | 0 <= i < |t.rows| && c in t.cols
            ensures Get(r.rows[i], Renamed(ps, c)) == Get(t.rows[i], c)
          {
            RenamedTail(ps, c);
            RenameStepCell(t, a, b, i, c);
          }
        }
      }
    }
  }

  /** After the first rename a later pair clashes exactly when it clashed
      before, and the first pair clashes on nothing. */
  lemma ClashStep(t: Table, ps: seq<(Col, Col)>)
    requires Renames(ps) && |ps| > 0 && RenameCol(t, ps[0].0, ps[0].1).Ok?
    ensures Clash(ps[1..], RenameCol(t, ps[0].0, ps[0].1).value.cols) <==> Clash(ps, t.cols)
  {
    var a, b := ps[0].0, ps[0].1;
    var u := RenameCol(t, a, b).value;
    forall k | 1 <= k < |ps|
      ensures (ps[k].0 in u.cols <==> ps[k].0 in t.cols) && (ps[k].1 in u.cols <==> ps[k].1 in t.cols)
    {
      assert Sources(ps)[0] != Sources(ps)[k] && Targets(ps)[0] != Targets(ps)[k];
      ReplaceMember(t.cols, a, b, ps[k].0);
      ReplaceMember(t.cols, a, b, ps[k].1);
    }
    if Clash(ps[1..], u.cols) {
      var k :| 0 <= k < |ps| - 1 && ps[1..][k].0 in u.cols && ps[1..][k].1 in u.cols;
      assert ps[k + 1].0 in t.cols && ps[k + 1].1 in t.cols;
    }
    if Clash(ps, t.cols) {
      var k :| 0 <= k < |ps| && ps[k].0 in t.cols && ps[k].1 in t.cols;
      assert k != 0;
      assert ps[1..][k - 1].0 in u.cols && ps[1..][k - 1].1 in u.cols;
    }
  }

  /** A label other than the two a rename touches is present after it
      exactly when it was before. */
  lemma ReplaceMember(s: seq<Col>, a: Col, b: Col, c: Col)
    requires c != a && c != b
    ensures c in Replace(s, a, b) <==> c in s
  {
    if c in s {
      var i :| 0 <= i < |s| && s[i] == c;
      assert Replace(s, a, b)[i] == c;
    }
  }

  /** One rename moves the cell of `a` to `b` and keeps every other. */
  lemma RenameStepCell(t: Table, a: Col, b: Col, i: nat, c: Col)
    requires RenameCol(t, a, b).Ok? && i < |t.rows| && c in t.cols
    ensures var u := RenameCol(t, a, b).value;
      Get(u.rows[i], if c == a then b else c) == Get(t.rows[i], c)
  {}

  /** A label goes under the target of the first pair that names it. */
  lemma {:induction false} RenamedAt(ps: seq<(Col, Col)>, k: nat, c: Col)
    requires k < |ps| && ps[k].0 == c && forall j :: 0 <= j < k ==> ps[j].0 != c
    ensures Renamed(ps, c) == ps[k].1
  {
    if k > 0 {
      RenamedAt(ps[1..], k - 1, c);
    }
  }

  function Swap(ps: seq<(Col, Col)>): (r: seq<(Col, Col)>)
    ensures |r| == |ps| && forall k :: 0 <= k < |ps| ==> r[k] == (ps[k].1, ps[k].0)
  {
    MapSeq(ps, (p: (Col, Col)) => (p.1, p.0))
  }

  /** A label either is the source of some pair and goes to its target, or
      is none and stays. */
  lemma RenamedCases(ps: seq<(Col, Col)>, c: Col) returns (k: int)
    requires Renames(ps)
    ensures -1 <= k < |ps|
    ensures k == -1 ==> Renamed(ps, c) == c && forall m :: 0 <= m < |ps| ==> ps[m].0 != c
    ensures k >= 0 ==> ps[k].0 == c && Renamed(ps, c) == ps[k].1
  {
    if exists m :: 0 <= m < |ps| && ps[m].0 == c {
      k :| 0 <= k < |ps| && ps[k].0 == c;
      forall j | 0 <= j < k
        ensures ps[j].0 != c
      {
        assert Sources(ps)[j] != Sources(ps)[k];
      }
      RenamedAt(ps, k, c);
    } else {
      k := -1;
      RenamedFresh(ps, c);
    }
  }

  /** Swapping every pair undoes the renames. */
  lemma RenamedBack(ps: seq<(Col, Col)>, c: Col)
    requires Renames(ps)
    requires forall m :: 0 <= m < |ps| ==> ps[m].1 != c
    ensures Renames(Swap(ps))
    ensures Renamed(Swap(ps), Renamed(ps, c)) == c
  {
    var sw := Swap(ps);
    assert Sources(sw) == Targets(ps) && Targets(sw) == Sources(ps);
    var k := RenamedCases(ps, c);
    if k >= 0 {
      forall j | 0 <= j < k
        ensures sw[j].0 != ps[k].1
      {
        assert Targets(ps)[j] != Targets(ps)[k];
      }
      RenamedAt(sw, k, ps[k].1);
    } else {
      RenamedFresh(sw, c);
    }
  }

  /** Renaming with every pair swapped restores a table whose labels held
      no target: the same labels, in the same order, with the same cells. */
  lemma RenameEachUndo(t: Table, ps: seq<(Col, Col)>)
    requires Renames(ps)
    requires forall m :: 0 <= m < |ps| ==> ps[m].1 !in t.cols
    ensures RenameEach(t, ps).Ok?
    ensures RenameEach(RenameEach(t, ps).value, Swap(ps)).Ok?
    ensures var v := RenameEach(RenameEach(t, ps).value, Swap(ps)).value;
      && v.cols == t.cols && |v.rows| == |t.rows|
      && forall i, c :: 0 <= i < |t.rows| && c in t.cols ==> Get(v.rows[i], c) == Get(t.rows[i], c)
  {
    RenameEachMaps(t, ps);
    var u := RenameEach(t, ps).value;
    var sw := Swap(ps);
    if |t.cols| > 0 {
      RenamedBack(ps, t.cols[0]);
    } else {
      assert Sources(sw) == Targets(ps) && Targets(sw) == Sources(ps);
    }
    RenameEachMaps(u, sw);
    assert !Clash(sw, u.cols) by {
      forall m | 0 <= m < |sw| && sw[m].0 in u.cols
        ensures sw[m].1 !in u.cols
      {
        if sw[m].1 in u.cols {
          var j :| 0 <= j < |u.cols| && u.cols[j] == ps[m].0;
          var k := RenamedCases(ps, t.cols[j]);
        }
      }
    }
    var v := RenameEach(u, sw).value;
    forall j | 0 <= j < |t.cols|
      ensures v.cols[j] == t.cols[j]
    {
      RenamedBack(ps, t.cols[j]);
    }
    forall i, c | 0 <= i < |t.rows| && c in t.cols
      ensures Get(v.rows[i], c) == Get(t.rows[i], c)
    {
      var j :| 0 <= j < |t.cols| && t.cols[j] == c;
      assert u.cols[j] == Renamed(ps, c);
      RenamedBack(ps, c);
    }
  }

  /** The renames `clean_round_cols` applies: the framed labels go back to
      the scraped ones for the next round. */
  const RoundRenames: seq<(Col, Col)> :=
    [(Fav("Seed"), SeedCol), (Fav("Team"), TeamCol), (Und("Seed"), Seed1Col), (Und("Team"), Team1Col)]

  function RoundName(c: Col): Col {
    Renamed(RoundRenames, c)
  }

  lemma DistinctFour(a: Col, b: Col, c: Col, d: Col)
    requires a != b && a != c && a != d && b != c && b != d && c != d
    ensures Distinct([a, b, c, d])
  {
  }

  lemma RoundRenamesFresh()
    ensures Renames(RoundRenames)
  {
    var ss := Sources(RoundRenames);
    var ts := Targets(RoundRenames);
    assert ss == [Fav("Seed"), Fav("Team"), Und("Seed"), Und("Team")];
    assert ts == [SeedCol, TeamCol, Seed1Col, Team1Col];
    assert "Seed"[0] != "Team"[0] && "Seed"[0] != "Team.1"[0] && "Seed.1"[0] != "Team"[0] && "Seed.1"[0] != "Team.1"[0];
    assert |"Seed"| != |"Seed.1"| && |"Team"| != |"Team.1"|;
    DistinctFour(Fav("Seed"), Fav("Team"), Und("Seed"), Und("Team"));
    DistinctFour(SeedCol, TeamCol, Seed1Col, Team1Col);
    assert forall k :: 0 <= k < |RoundRenames| ==> RoundRenames[k].0.Side? && RoundRenames[k].1.Name?;
  }

  /** `clean_round_cols`: `Seed_Favorite`, `Team_Favorite`, `Seed_Underdog`
      and `Team_Underdog` become `Seed`, `Team`, `Seed.1` and `Team.1`; a
      rename onto a label already present is refused. */
  function CleanRoundCols(t: Table): (r: Result<Table>)
    ensures r.Ok? <==> !Clash(RoundRenames, t.cols)
    ensures r.Ok? ==> |r.value.cols| == |t.cols| && |r.value.rows| == |t.rows|
    ensures r.Ok? ==> forall i :: 0 <= i < |t.cols| ==> r.value.cols[i] == RoundName(t.cols[i])
    ensures r.Ok? ==> forall i, c :: 0 <= i < |t.rows| && c in t.cols ==>
      Get(r.value.rows[i], RoundName(c)) == Get(t.rows[i], c)
  {
    RoundRenamesFresh();
    RenameEachMaps(t, RoundRenames);
    RenameEach(t, RoundRenames)
  }

  /** Where each framed label goes, and that every other label stays. */
  lemma RoundNames(c: Col)
    ensures RoundName(Fav("Seed")) == SeedCol && RoundName(Fav("Team")) == TeamCol
    ensures RoundName(Und("Seed")) == Seed1Col && RoundName(Und("Team")) == Team1Col
    ensures c !in Sources(RoundRenames) ==> RoundName(c) == c
  {
    var ps := RoundRenames;
    assert "Seed" != "Team" by { assert "Seed"[0] != "Team"[0]; }
    RenamedAt(ps, 0, Fav("Seed"));
    RenamedAt(ps, 1, Fav("Team"));
    RenamedAt(ps, 2, Und("Seed"));
    RenamedAt(ps, 3, Und("Team"));
    if c !in Sources(ps) {
      RenamedFresh(ps, c);
    }
  }

  /** Renaming the round labels back to the framed ones restores a table
      that held none of `Seed`, `Team`, `Seed.1` and `Team.1`. */
  lemma CleanRoundColsUndone(t: Table)
    requires SeedCol !in t.cols && TeamCol !in t.cols && Seed1Col !in t.cols && Team1Col !in t.cols
    ensures CleanRoundCols(t).Ok?
    ensures var v := RenameEach(CleanRoundCols(t).value, Swap(RoundRenames));
      && v.Ok? && v.value.cols == t.cols
      && forall i, c :: 0 <= i < |t.rows| && c in t.cols ==> Get(v.value.rows[i], c) == Get(t.rows[i], c)
  {
    RoundRenamesFresh();
    RenameEachUndo(t, RoundRenames);
  }

  // ---------------------------------------------------------------------------
  // clean_curr_round_data

  const SeedSides: seq<Col> := [Fav("Seed"), Und("Seed")]

  /** The column `c` of `src` laid against the rows of `t` by position, as
      index alignment does on dense indexes: missing past `src`'s end. */
  function Aligned(t: Table, src: Table, c: Col): (vs: seq<Value>)
    ensures |vs| == |t.rows|
    ensures forall i :: 0 <= i < |t.rows| ==> vs[i] == Get(RowAt(src.rows, i), c)
  {
    seq(|t.rows|, i requires 0 <= i < |t.rows| => Get(RowAt(src.rows, i), c))
  }

  /** `t[cs] = src[cs]` on dense indexes. */
  function PutAligned(t: Table, src: Table, cs: seq<Col>): (r: Table)
    ensures |r.rows| == |t.rows|
    ensures forall c :: c in r.cols <==> c in t.cols || c in cs
    ensures |t.cols| <= |r.cols| && r.cols[..|t.cols|] == t.cols
    decreases |cs|
  {
    if |cs| == 0 then t
    else
      var u := Assign(t, cs[0], Aligned(t, src, cs[0]));
      var r := PutAligned(u, src, cs[1..]);
      assert r.cols[..|t.cols|] == u.cols[..|u.cols|][..|t.cols|];
      r
  }

  /** After `t[cs] = src[cs]`, the cells under `cs` are `src`'s, by
      position, and every other cell is `t`'s. */
  lemma {:induction false} PutAlignedCell(t: Table, src: Table, cs: seq<Col>, i: nat, c: Col)
    requires i < |t.rows|
    ensures Get(PutAligned(t, src, cs).rows[i], c) == if c in cs then Get(RowAt(src.rows, i), c) else Get(t.rows[i], c)
    decreases |cs|
  {
    if |cs| > 0 {
      var u := Assign(t, cs[0], Aligned(t, src, cs[0]));
      PutAlignedCell(u, src, cs[1..], i, c);
      assert u.rows[i] == t.rows[i][cs[0] := Get(RowAt(src.rows, i), cs[0])];
    }
  }

  /** The key `drop_duplicates(subset=[a, b])` compares. */
  function PairKey(a: Col, b: Col): Row -> (Value, Value) {
    (r: Row) => (Get(r, a), Get(r, b))
  }

  /** `drop_duplicates(subset=[a, b])` followed by a dense reindex; a subset
      label the table lacks raises KeyError. */
  function DedupePairs(t: Table, a: Col, b: Col): (r: Result<Table>)
    ensures r.Ok? <==> a in t.cols && b in t.cols
    ensures r.Err? ==> r.error.KeyError?
    ensures r.Ok? ==> r.value.cols == t.cols && r.value.rows == KeepFirst(t.rows, PairKey(a, b))
  {
    var _ :- Need(t.cols, [a, b]);
    Ok(Table(t.cols, KeepFirst(t.rows, PairKey(a, b))))
  }

  /** The round's predictions laid beside its features, under the labels
      the next round reads, before the dedupe. */
  function Relabelled(all: Table, currX: Table, school: Table): (r: Result<Table>)
    ensures (Fav("Seed") !in all.cols || Und("Seed") !in all.cols) ==> r.Err? && r.error.KeyError?
  {
    var seeds :- Select(all, SeedSides);
    var x := PutAligned(currX, seeds, SeedSides);
    var joined :- ConcatCols(school, x);
    CleanRoundCols(joined)
  }

  datatype RoundData = RoundData(next: Table, summary: Table)

  /** `clean_curr_round_data`: seeds copied from the round's merged data,
      predictions and features side by side under the scraped labels, and
      both tables deduplicated on the ordered team pair keeping the first
      occurrence. */
  function CleanCurrRoundData(all: Table, currX: Table, school: Table): (r: Result<RoundData>)
    ensures (Fav("Seed") !in all.cols || Und("Seed") !in all.cols) ==> r.Err? && r.error.KeyError?
    ensures r.Ok? ==> Relabelled(all, currX, school).Ok?
    ensures r.Ok? ==> var next := r.value.next;
      && next.cols == Relabelled(all, currX, school).value.cols
      && next.rows == KeepFirst(Relabelled(all, currX, school).value.rows, PairKey(TeamCol, Team1Col))
    ensures r.Ok? ==> (r.value.summary.cols == school.cols
      && r.value.summary.rows == KeepFirst(school.rows, PairKey(Fav("Team"), Und("Team"))))
  {
    var x :- Relabelled(all, currX, school);
    var next :- DedupePairs(x, TeamCol, Team1Col);
    var summary :- DedupePairs(school, Fav("Team"), Und("Team"));
    Ok(RoundData(next, summary))
  }

  /** Row `i` of the relabelled round takes its teams, under the scraped
      labels, from the predictions at the same position. */
  lemma RelabelledTeams(all: Table, currX: Table, school: Table, i: nat)
    requires Relabelled(all, currX, school).Ok?
    ensures var x := Relabelled(all, currX, school).value;
      && |x.rows| == Max(|school.rows|, |currX.rows|)
      && (i < |x.rows| && Fav("Team") in school.cols ==> Get(x.rows[i], TeamCol) == Get(RowAt(school.rows, i), Fav("Team")))
      && (i < |x.rows| && Und("Team") in school.cols ==> Get(x.rows[i], Team1Col) == Get(RowAt(school.rows, i), Und("Team")))
  {
    RoundNames(Fav("Team"));
  }

  /** Row `i` of the relabelled round takes its seeds from the merged data
      at the same position. */
  lemma RelabelledSeeds(all: Table, currX: Table, school: Table, i: nat)
    requires Relabelled(all, currX, school).Ok? && i < |currX.rows|
    ensures var x := Relabelled(all, currX, school).value;
      && i < |x.rows|
      && Get(x.rows[i], SeedCol) == Get(RowAt(all.rows, i), Fav("Seed"))
      && Get(x.rows[i], Seed1Col) == Get(RowAt(all.rows, i), Und("Seed"))
  {
    RoundNames(Fav("Team"));
    SeedsJoined(all, currX, school, i);
  }

  /** Before the renames, the seeds sit under the framed labels. */
  lemma SeedsJoined(all: Table, currX: Table, school: Table, i: nat)
    requires Select(all, SeedSides).Ok? && i < |currX.rows|
    requires ConcatCols(school, PutAligned(currX, Select(all, SeedSides).value, SeedSides)).Ok?
    ensures var joined := ConcatCols(school, PutAligned(currX, Select(all, SeedSides).value, SeedSides)).value;
      && i < |joined.rows| && Fav("Seed") in joined.cols && Und("Seed") in joined.cols
      && Get(joined.rows[i], Fav("Seed")) == Get(RowAt(all.rows, i), Fav("Seed"))
      && Get(joined.rows[i], Und("Seed")) == Get(RowAt(all.rows, i), Und("Seed"))
  {
    var seeds := Select(all, SeedSides).value;
    var px := PutAligned(currX, seeds, SeedSides);
    PutAlignedCell(currX, seeds, SeedSides, i, Fav("Seed"));
    PutAlignedCell(currX, seeds, SeedSides, i, Und("Seed"));
    assert Fav("Seed") in px.cols && Und("Seed") in px.cols;
    ConcatColsRight(school, px, i, Fav("Seed"));
    ConcatColsRight(school, px, i, Und("Seed"));
  }

  /** When the predictions cover every feature row, the two cleaned tables
      lose the same positions: they have equal length and row `k` of each
      is the same matchup. */
  lemma CurrRoundAligned(all: Table, currX: Table, school: Table)
    requires CleanCurrRoundData(all, currX, school).Ok? && |currX.rows| <= |school.rows|
    ensures var d := CleanCurrRoundData(all, currX, school).value;
      && |d.next.rows| == |d.summary.rows|
      && forall k :: 0 <= k < |d.next.rows| ==>
        Get(d.next.rows[k], TeamCol) == Get(d.summary.rows[k], Fav("Team"))
        && Get(d.next.rows[k], Team1Col) == Get(d.summary.rows[k], Und("Team"))
  {
    var x := Relabelled(all, currX, school).value;
    assert DedupePairs(school, Fav("Team"), Und("Team")).Ok?;
    RelabelledPairs(all, currX, school);
    DedupeAligned(x, school);
  }

  /** Before the dedupe, row `i` of the relabelled round carries the team
      pair of row `i` of the summary. */
  lemma RelabelledPairs(all: Table, currX: Table, school: Table)
    requires Relabelled(all, currX, school).Ok? && |currX.rows| <= |school.rows|
    requires Fav("Team") in school.cols && Und("Team") in school.cols
    ensures var x := Relabelled(all, currX, school).value;
      && |x.rows| == |school.rows|
      && forall i :: 0 <= i < |x.rows| ==>
        Get(x.rows[i], TeamCol) == Get(school.rows[i], Fav("Team")) && Get(x.rows[i], Team1Col) == Get(school.rows[i], Und("Team"))
  {
    var x := Relabelled(all, currX, school).value;
    RelabelledTeams(all, currX, school, 0);
    forall i | 0 <= i < |x.rows|
      ensures Get(x.rows[i], TeamCol) == Get(school.rows[i], Fav("Team"))
      ensures Get(x.rows[i], Team1Col) == Get(school.rows[i], Und("Team"))
    {
      RelabelledTeams(all, currX, school, i);
      assert RowAt(school.rows, i) == school.rows[i];
    }
  }

  /** Tables that agree on the team pair at every position keep the same
      positions under the dedupe. */
  lemma DedupeAligned(x: Table, school: Table)
    requires |x.rows| == |school.rows|
    requires forall i :: 0 <= i < |x.rows| ==>
      Get(x.rows[i], TeamCol) == Get(school.rows[i], Fav("Team")) && Get(x.rows[i], Team1Col) == Get(school.rows[i], Und("Team"))
    ensures var kx, ks := PairKey(TeamCol, Team1Col), PairKey(Fav("Team"), Und("Team"));
      && |KeepFirst(x.rows, kx)| == |KeepFirst(school.rows, ks)|
      && forall k :: 0 <= k < |KeepFirst(x.rows, kx)| ==>
        Get(KeepFirst(x.rows, kx)[k], TeamCol) == Get(KeepFirst(school.rows, ks)[k], Fav("Team"))
        && Get(KeepFirst(x.rows, kx)[k], Team1Col) == Get(KeepFirst(school.rows, ks)[k], Und("Team"))
  {
    var kx, ks := PairKey(TeamCol, Team1Col), PairKey(Fav("Team"), Und("Team"));
    assert Keys(x.rows, kx) == Keys(school.rows, ks);
    KeepFirstAligned(x.rows, kx, school.rows, ks);
  }

  // ---------------------------------------------------------------------------
  // fill_playin_teams

  /** `row.isnull().any()` over the table's labels. */
  predicate RowHasNull(cols: seq<Col>, row: Row) {
    exists c :: c in cols && Get(row, c) == Null
  }

  /** The positions of the rows holding a missing cell, top to bottom. */
  function NullRows(t: Table): (r: seq<nat>)
    ensures forall j :: 0 <= j < |r| ==> r[j] < |t.rows| && RowHasNull(t.cols, t.rows[r[j]])
    ensures forall i :: 0 <= i < |t.rows| && RowHasNull(t.cols, t.rows[i]) ==> i in r
    ensures forall a, b :: 0 <= a < b < |r| ==> r[a] < r[b]
  {
    TrueIndices(seq(|t.rows|, i requires 0 <= i < |t.rows| => RowHasNull(t.cols, t.rows[i])))
  }

  datatype Slot = Slot(seed: Value, team: Value)

  /** The winner of a play-in game: the `Seed`/`Team` side unless the
      upset flag is set. The flag is read first, then the chosen seed and
      team, each raising KeyError when its label is missing. */
  function PlayinWinner(cols: seq<Col>, row: Row): (r: Result<Slot>)
    ensures UpsetCol !in cols ==> r == Err(KeyError("Underdog_Upset"))
    ensures r.Ok? ==> UpsetCol in cols
    ensures r.Ok? && PyEq(Get(row, UpsetCol), Int(0)) ==> r.value == Slot(Get(row, SeedCol), Get(row, TeamCol))
    ensures r.Ok? && !PyEq(Get(row, UpsetCol), Int(0)) ==> r.value == Slot(Get(row, Seed1Col), Get(row, Team1Col))
    ensures UpsetCol in cols && SeedCol in cols && TeamCol in cols && Seed1Col in cols && Team1Col in cols ==> r.Ok?
  {
    if UpsetCol !in cols then Err(KeyError(Spell(UpsetCol)))
    else
      var home := PyEq(Get(row, UpsetCol), Int(0));
      var sc := if home then SeedCol else Seed1Col;
      var tc := if home then TeamCol else Team1Col;
      if sc !in cols then Err(KeyError(Spell(sc)))
      else if tc !in cols then Err(KeyError(Spell(tc)))
      else Ok(Slot(Get(row, sc), Get(row, tc)))
  }

  function AddLabel(cols: seq<Col>, c: Col): seq<Col> {
    if c in cols then cols else cols + [c]
  }

  /** `first.loc[i, 'Seed.1'], first.loc[i, 'Team.1'] = w`; a missing label
      is appended. */
  function Place(t: Table, i: nat, w: Slot): (r: Table)
    requires i < |t.rows|
    ensures |r.rows| == |t.rows|
    ensures forall c :: c in r.cols <==> c in t.cols || c == Seed1Col || c == Team1Col
  {
    Table(AddLabel(AddLabel(t.cols, Seed1Col), Team1Col),
      t.rows[i := t.rows[i][Seed1Col := w.seed][Team1Col := w.team]])
  }

  /** Every play-in row from `k` on decides its winner. */
  predicate Decided(cols: seq<Col>, ws: seq<Row>, k: nat) {
    forall j :: k <= j < |ws| ==> PlayinWinner(cols, ws[j]).Ok?
  }

  predicate Increasing(s: seq<nat>) {
    forall a, b :: 0 <= a < b < |s| ==> s[a] < s[b]
  }

  /** The play-in loop from row `k` on: winner `j` goes into the row at
      `nulls[j]`. */
  function FillFrom(cols: seq<Col>, ws: seq<Row>, k: nat, nulls: seq<nat>, t: Table): (r: Result<Table>)
    requires k <= |ws|
    requires forall j :: 0 <= j < |nulls| ==> nulls[j] < |t.rows|
    ensures r.Ok? ==> |r.value.rows| == |t.rows| && |ws| <= Max(k, |nulls|) && Decided(cols, ws, k)
    ensures r.Ok? ==> forall c :: c in t.cols ==> c in r.value.cols
    ensures k <= |nulls| && Decided(cols, ws, k) ==> (r.Err? <==> |ws| > |nulls|)
    ensures r.Err? && Decided(cols, ws, k) ==> r.error == IndexError
    decreases |ws| - k
  {
    if k == |ws| then Ok(t)
    else
      var w :- PlayinWinner(cols, ws[k]);
      if k >= |nulls| then Err(IndexError)
      else FillFrom(cols, ws, k + 1, nulls, Place(t, nulls[k], w))
  }

  /** `fill_playin_teams`: the i-th play-in winner goes into `Seed.1` and
      `Team.1` of the i-th first-round row holding a missing cell. */
  function FillPlayin(playin: Table, first: Table): (r: Result<Table>)
    ensures r.Ok? ==> |r.value.rows| == |first.rows| && Decided(playin.cols, playin.rows, 0)
    ensures r.Ok? ==> |playin.rows| <= |NullRows(first)|
    ensures Decided(playin.cols, playin.rows, 0) ==> (r.Err? <==> |playin.rows| > |NullRows(first)|)
    ensures r.Err? && Decided(playin.cols, playin.rows, 0) ==> r.error == IndexError
    ensures r.Ok? ==> forall c :: c in first.cols ==> c in r.value.cols
  {
    FillFrom(playin.cols, playin.rows, 0, NullRows(first), first)
  }

  /** The loop leaves alone every row no remaining winner targets. */
  lemma {:induction false} FillFromKeeps(cols: seq<Col>, ws: seq<Row>, k: nat, nulls: seq<nat>, t: Table, i: nat)
    requires k <= |ws| && forall j :: 0 <= j < |nulls| ==> nulls[j] < |t.rows|
    requires FillFrom(cols, ws, k, nulls, t).Ok? && i < |t.rows|
    requires forall j :: k <= j < |ws| && j < |nulls| ==> nulls[j] != i
    ensures FillFrom(cols, ws, k, nulls, t).value.rows[i] == t.rows[i]
    decreases |ws| - k
  {
    if k < |ws| {
      var w := PlayinWinner(cols, ws[k]).value;
      FillFromKeeps(cols, ws, k + 1, nulls, Place(t, nulls[k], w), i);
    }
  }

  /** The loop writes winner `j` into `Seed.1` and `Team.1` of row
      `nulls[j]`. */
  lemma {:induction false} FillFromWrites(cols: seq<Col>, ws: seq<Row>, k: nat, nulls: seq<nat>, t: Table, j: nat)
    requires k <= j < |ws| && forall m :: 0 <= m < |nulls| ==> nulls[m] < |t.rows|
    requires Increasing(nulls) && FillFrom(cols, ws, k, nulls, t).Ok?
    ensures j < |nulls| && PlayinWinner(cols, ws[j]).Ok?
    ensures var r, w := FillFrom(cols, ws, k, nulls, t).value, PlayinWinner(cols, ws[j]).value;
      Get(r.rows[nulls[j]], Seed1Col) == w.seed && Get(r.rows[nulls[j]], Team1Col) == w.team
    decreases |ws| - k
  {
    var w := PlayinWinner(cols, ws[k]).value;
    var u := Place(t, nulls[k], w);
    if j == k {
      FillFromKeeps(cols, ws, k + 1, nulls, u, nulls[k]);
    } else {
      FillFromWrites(cols, ws, k + 1, nulls, u, j);
    }
  }

  /** The loop changes no cell outside `Seed.1` and `Team.1`. */
  lemma {:induction false} FillFromCells(cols: seq<Col>, ws: seq<Row>, k: nat, nulls: seq<nat>, t: Table, i: nat, c: Col)
    requires k <= |ws| && forall j :: 0 <= j < |nulls| ==> nulls[j] < |t.rows|
    requires FillFrom(cols, ws, k, nulls, t).Ok? && i < |t.rows|
    requires c != Seed1Col && c != Team1Col
    ensures Get(FillFrom(cols, ws, k, nulls, t).value.rows[i], c) == Get(t.rows[i], c)
    decreases |ws| - k
  {
    if k < |ws| {
      var w := PlayinWinner(cols, ws[k]).value;
      var u := Place(t, nulls[k], w);
      FillFromCells(cols, ws, k + 1, nulls, u, i, c);
    }
  }

  /** Play-in winner `j` fills `Seed.1` and `Team.1` of the `j`-th
      first-round row with a missing cell. */
  lemma PlayinWinnerPlaced(playin: Table, first: Table, j: nat)
    requires FillPlayin(playin, first).Ok? && j < |playin.rows|
    ensures j < |NullRows(first)| && PlayinWinner(playin.cols, playin.rows[j]).Ok?
    ensures var r, n, w := FillPlayin(playin, first).value, NullRows(first)[j], PlayinWinner(playin.cols, playin.rows[j]).value;
      Get(r.rows[n], Seed1Col) == w.seed && Get(r.rows[n], Team1Col) == w.team
  {
    FillFromWrites(playin.cols, playin.rows, 0, NullRows(first), first, j);
  }

  /** A first-round row without a missing cell is left as it was. */
  lemma PlayinKeepsCompleteRows(playin: Table, first: Table, i: nat)
    requires FillPlayin(playin, first).Ok? && i < |first.rows|
    requires !RowHasNull(first.cols, first.rows[i])
    ensures FillPlayin(playin, first).value.rows[i] == first.rows[i]
  {
    FillFromKeeps(playin.cols, playin.rows, 0, NullRows(first), first, i);
  }

  /** Null rows past the number of play-in games are left as they were. */
  lemma PlayinKeepsSpareRows(playin: Table, first: Table, j: nat)
    requires FillPlayin(playin, first).Ok? && |playin.rows| <= j < |NullRows(first)|
    ensures var n := NullRows(first)[j]; FillPlayin(playin, first).value.rows[n] == first.rows[n]
  {
    FillFromKeeps(playin.cols, playin.rows, 0, NullRows(first), first, NullRows(first)[j]);
  }

  /** Only `Seed.1` and `Team.1` change; every `Seed` and `Team` cell, and
      every other, stays. */
  lemma PlayinKeepsCells(playin: Table, first: Table, i: nat, c: Col)
    requires FillPlayin(playin, first).Ok? && i < |first.rows|
    requires c != Seed1Col && c != Team1Col
    ensures Get(FillPlayin(playin, first).value.rows[i], c) == Get(first.rows[i], c)
  {
    FillFromCells(playin.cols, playin.rows, 0, NullRows(first), first, i, c);
  }

  // ---------------------------------------------------------------------------
  // clean_bracket

  /** `t.iloc[:, 1:]`: every label but the first. */
  function Tail(t: Table): (r: Table)
    ensures r.cols == (if |t.cols| == 0 then [] else t.cols[1..]) && |r.rows| == |t.rows|
    ensures forall i, c :: 0 <= i < |t.rows| && c in r.cols ==> Get(r.rows[i], c) == Get(t.rows[i], c)
  {
    var cs := if |t.cols| == 0 then [] else t.cols[1..];
    Table(cs, RestrictAll(t.rows, cs))
  }

  /** The three series `matchups['Seed']`, `preds['Team_Favorite']` and
      `matchups['Seed.1']` side by side; the shorter is padded with
      missing cells. */
  function Front(m: Table, p: Table): (r: Table)
    ensures r.cols == [SeedCol, Fav("Team"), Seed1Col] && |r.rows| == Max(|m.rows|, |p.rows|)
    ensures forall i :: 0 <= i < |r.rows| ==>
      && Get(r.rows[i], SeedCol) == Get(RowAt(m.rows, i), SeedCol)
      && Get(r.rows[i], Fav("Team")) == Get(RowAt(p.rows, i), Fav("Team"))
      && Get(r.rows[i], Seed1Col) == Get(RowAt(m.rows, i), Seed1Col)
  {
    Table([SeedCol, Fav("Team"), Seed1Col], MapSeq(Positions(Max(|m.rows|, |p.rows|)), (i: nat) =>
      map[SeedCol := Get(RowAt(m.rows, i), SeedCol),
          Fav("Team") := Get(RowAt(p.rows, i), Fav("Team")),
          Seed1Col := Get(RowAt(m.rows, i), Seed1Col)]))
  }

  /** `pd.concat([matchups['Seed'], preds['Team_Favorite'],
      matchups['Seed.1'], preds.iloc[:, 1:]], axis=1)`: row `i` takes its
      seeds from the matchups and its results from the predictions, at the
      same position. */
  function Assemble(m: Table, p: Table): (r: Result<Table>)
    ensures SeedCol !in m.cols ==> r == Err(KeyError("Seed"))
    ensures r.Ok? ==> SeedCol in m.cols && Fav("Team") in p.cols && Seed1Col in m.cols
    ensures r.Ok? ==> r.value.cols == [SeedCol, Fav("Team"), Seed1Col] + Tail(p).cols
    ensures r.Ok? ==> SeedCol !in Tail(p).cols && Seed1Col !in Tail(p).cols
    ensures r.Ok? ==> |r.value.rows| == Max(|m.rows|, |p.rows|)
  {
    var _ :- Need(m.cols, [SeedCol]);
    var _ :- Need(p.cols, [Fav("Team")]);
    var _ :- Need(m.cols, [Seed1Col]);
    ConcatCols(Front(m, p), Tail(p))
  }

  /** Row `i` of the assembled bracket takes its seeds from the matchups
      and its favourite from the results, at the same position. */
  lemma AssembleRow(m: Table, p: Table, i: nat)
    requires Assemble(m, p).Ok? && i < |Assemble(m, p).value.rows|
    ensures var row := Assemble(m, p).value.rows[i];
      && Get(row, SeedCol) == Get(RowAt(m.rows, i), SeedCol)
      && Get(row, Fav("Team")) == Get(RowAt(p.rows, i), Fav("Team"))
      && Get(row, Seed1Col) == Get(RowAt(m.rows, i), Seed1Col)
  {
    var front := Front(m, p);
    assert Assemble(m, p) == ConcatCols(front, Tail(p));
    ConcatColsLeft(front, Tail(p), i, SeedCol);
    ConcatColsLeft(front, Tail(p), i, Fav("Team"));
    ConcatColsLeft(front, Tail(p), i, Seed1Col);
  }

  /** The remaining result columns of row `i` come from the results at the
      same position. */
  lemma AssembleTail(m: Table, p: Table, i: nat, c: Col)
    requires Assemble(m, p).Ok? && i < |Assemble(m, p).value.rows| && c in Tail(p).cols
    ensures Get(Assemble(m, p).value.rows[i], c) == Get(RowAt(p.rows, i), c)
  {
    assert Get(RowAt(Tail(p).rows, i), c) == Get(RowAt(p.rows, i), c);
  }

  /** `clean_bracket`: every round's matchups and results stacked in round
      order, laid side by side, the seed labels renamed to
      `Seed_Favorite`/`Seed_Underdog` and the round numbers turned into
      names. `pd.concat` of no tables raises ValueError. */
  function CleanBracket(matchups: seq<Table>, rounds: seq<Table>, toNumber: map<Value, Value>, toText: map<Value, Value>): (r: Result<Table>)
    ensures |matchups| == 0 || |rounds| == 0 ==> r == Err(ValueError)
    ensures r.Ok? ==> r.value.cols == [Fav("Seed"), Fav("Team"), Und("Seed")] + Tail(ConcatAll(rounds)).cols
    ensures r.Ok? ==> |r.value.rows| == Max(RowTotal(matchups), RowTotal(rounds))
  {
    if |matchups| == 0 || |rounds| == 0 then Err(ValueError)
    else
      var full :- Assemble(ConcatAll(matchups), ConcatAll(rounds));
      var named :- RenameSeeds(full);
      SeedsRenamed(Tail(ConcatAll(rounds)).cols);
      ConvertRounds(named, toNumber, toText)
  }

  lemma SeedsRenamed(rest: seq<Col>)
    requires SeedCol !in rest && Seed1Col !in rest
    ensures Replace(Replace([SeedCol, Fav("Team"), Seed1Col] + rest, SeedCol, Fav("Seed")), Seed1Col, Und("Seed"))
      == [Fav("Seed"), Fav("Team"), Und("Seed")] + rest
  {
    var s0 := [SeedCol, Fav("Team"), Seed1Col] + rest;
    var s1 := Replace(s0, SeedCol, Fav("Seed"));
    assert s1 == [Fav("Seed"), Fav("Team"), Seed1Col] + rest by {
      assert SeedCol != Seed1Col by { assert |"Seed"| != |"Seed.1"|; }
      forall i | 3 <= i < |s0|
        ensures s1[i] == s0[i]
      {
        assert s0[i] == rest[i - 3];
      }
    }
    var s2 := Replace(s1, Seed1Col, Und("Seed"));
    forall i | 3 <= i < |s1|
      ensures s2[i] == s1[i]
    {
      assert s1[i] == rest[i - 3];
    }
  }

  /** `rename(columns={'Seed': 'Seed_Favorite', 'Seed.1': 'Seed_Underdog'})`. */
  function RenameSeeds(t: Table): (r: Result<Table>)
    ensures r.Ok? ==> |r.value.rows| == |t.rows| && r.value.cols == Replace(Replace(t.cols, SeedCol, Fav("Seed")), Seed1Col, Und("Seed"))
  {
    var u :- RenameCol(t, SeedCol, Fav("Seed"));
    RenameCol(u, Seed1Col, Und("Seed"))
  }

  /** The bracket is the seed-renamed, round-converted assembly of the
      stacked tables. */
  lemma BracketByParts(matchups: seq<Table>, rounds: seq<Table>, toNumber: map<Value, Value>, toText: map<Value, Value>)
    requires CleanBracket(matchups, rounds, toNumber, toText).Ok?
    ensures Assemble(ConcatAll(matchups), ConcatAll(rounds)).Ok?
    ensures var full := Assemble(ConcatAll(matchups), ConcatAll(rounds)).value;
      && RenameSeeds(full).Ok?
      && CleanBracket(matchups, rounds, toNumber, toText) == ConvertRounds(RenameSeeds(full).value, toNumber, toText)
  {}

  /** Converting the rounds changes no cell but the round's. */
  lemma ConvertKeeps(t: Table, toNumber: map<Value, Value>, toText: map<Value, Value>, i: nat, c: Col)
    requires ConvertRounds(t, toNumber, toText).Ok? && i < |t.rows| && c != RoundCol
    ensures Get(ConvertRounds(t, toNumber, toText).value.rows[i], c) == Get(t.rows[i], c)
  {}

  /** Row `i` of the bracket: the favourite's seed and team and the
      underdog's seed, taken at position `i` of the stacked matchups and
      results. */
  lemma BracketRow(matchups: seq<Table>, rounds: seq<Table>, toNumber: map<Value, Value>, toText: map<Value, Value>, i: nat)
    requires CleanBracket(matchups, rounds, toNumber, toText).Ok?
    requires i < |CleanBracket(matchups, rounds, toNumber, toText).value.rows|
    ensures var row, m, p := CleanBracket(matchups, rounds, toNumber, toText).value.rows[i], ConcatAll(matchups), ConcatAll(rounds);
      && Get(row, Fav("Seed")) == Get(RowAt(m.rows, i), SeedCol)
      && Get(row, Fav("Team")) == Get(RowAt(p.rows, i), Fav("Team"))
      && Get(row, Und("Seed")) == Get(RowAt(m.rows, i), Seed1Col)
  {
    BracketByParts(matchups, rounds, toNumber, toText);
    var m, p := ConcatAll(matchups), ConcatAll(rounds);
    var full := Assemble(m, p).value;
    var named := RenameSeeds(full).value;
    AssembleRow(m, p, i);
    RenameSeedsCell(full, i, SeedCol);
    RenameSeedsCell(full, i, Fav("Team"));
    RenameSeedsCell(full, i, Seed1Col);
    ConvertKeeps(named, toNumber, toText, i, Fav("Seed"));
    ConvertKeeps(named, toNumber, toText, i, Fav("Team"));
    ConvertKeeps(named, toNumber, toText, i, Und("Seed"));
  }

  /** Every other result column of row `i`, the round aside, is the
      stacked results' cell at position `i`. */
  lemma BracketResult(matchups: seq<Table>, rounds: seq<Table>, toNumber: map<Value, Value>, toText: map<Value, Value>, i: nat, c: Col)
    requires CleanBracket(matchups, rounds, toNumber, toText).Ok?
    requires i < |CleanBracket(matchups, rounds, toNumber, toText).value.rows|
    requires c in Tail(ConcatAll(rounds)).cols && c != RoundCol
    ensures Get(CleanBracket(matchups, rounds, toNumber, toText).value.rows[i], c) == Get(RowAt(ConcatAll(rounds).rows, i), c)
  {
    BracketByParts(matchups, rounds, toNumber, toText);
    var m, p := ConcatAll(matchups), ConcatAll(rounds);
    var full := Assemble(m, p).value;
    var named := RenameSeeds(full).value;
    AssembleTail(m, p, i, c);
    RenameSeedsCell(full, i, c);
    ConvertKeeps(named, toNumber, toText, i, c);
  }

  /** Column `c` of the stacked results, padded with missing cells to `n`
      rows. */
  function Padded(p: Table, c: Col, n: nat): (vs: seq<Value>)
    ensures |vs| == n && forall i :: 0 <= i < n ==> vs[i] == Get(RowAt(p.rows, i), c)
  {
    seq(n, i requires 0 <= i < n => Get(RowAt(p.rows, i), c))
  }

  /** The round of row `i` is the stacked results' round, mapped to a
      name when the whole column is numeric and to a number when it is
      text. */
  lemma BracketRound(matchups: seq<Table>, rounds: seq<Table>, toNumber: map<Value, Value>, toText: map<Value, Value>, i: nat)
    requires CleanBracket(matchups, rounds, toNumber, toText).Ok?
    requires i < |CleanBracket(matchups, rounds, toNumber, toText).value.rows|
    ensures var r, p := CleanBracket(matchups, rounds, toNumber, toText).value, ConcatAll(rounds);
      var v := Get(RowAt(p.rows, i), RoundCol);
      var m := if ObjectDtype(Padded(p, RoundCol, |r.rows|)) then toNumber else toText;
      Get(r.rows[i], RoundCol) == if v in m then m[v] else v
  {
    BracketByParts(matchups, rounds, toNumber, toText);
    var m, p := ConcatAll(matchups), ConcatAll(rounds);
    var named := RenameSeeds(Assemble(m, p).value).value;
    NamedRound(m, p);
  }

  lemma RenamedRoundInTail(m: Table, p: Table)
    requires Assemble(m, p).Ok? && RenameSeeds(Assemble(m, p).value).Ok?
    requires RoundCol in RenameSeeds(Assemble(m, p).value).value.cols
    ensures RoundCol in Tail(p).cols
  {
    SeedsRenamed(Tail(p).cols);
    assert RoundCol != Fav("Seed") && RoundCol != Fav("Team") && RoundCol != Und("Seed");
  }

  /** After the seed renames, the round column is the stacked results'
      round, padded. */
  lemma NamedRound(m: Table, p: Table)
    requires Assemble(m, p).Ok? && RenameSeeds(Assemble(m, p).value).Ok?
    ensures var named := RenameSeeds(Assemble(m, p).value).value;
      RoundCol in named.cols ==> Column(named, RoundCol) == Padded(p, RoundCol, |named.rows|)
  {
    var full := Assemble(m, p).value;
    var named := RenameSeeds(full).value;
    if RoundCol in named.cols {
      RenamedRoundInTail(m, p);
      forall k | 0 <= k < |named.rows|
        ensures Column(named, RoundCol)[k] == Padded(p, RoundCol, |named.rows|)[k]
      {
        AssembleTail(m, p, k, RoundCol);
        RenameSeedsCell(full, k, RoundCol);
      }
    }
  }

  /** The seed renames move `Seed` and `Seed.1` and keep every other cell. */
  lemma RenameSeedsCell(t: Table, i: nat, c: Col)
    requires RenameSeeds(t).Ok? && i < |t.rows| && c in t.cols
    ensures Get(RenameSeeds(t).value.rows[i], if c == SeedCol then Fav("Seed") else if c == Seed1Col then Und("Seed") else c)
      == Get(t.rows[i], c)
  {
    var u := RenameCol(t, SeedCol, Fav("Seed")).value;
    assert SeedCol != Seed1Col by { assert |"Seed"| != |"Seed.1"|; }
  }
}
