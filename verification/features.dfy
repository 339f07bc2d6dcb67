/** Column-schema transforms of the feature stage: points differentials,
    the Round conversion, favorite/underdog pairs collapsed into
    underdog-relative differences, and the shape of feature scaling. */
module Features {

  import opened Results
  import opened Text
  import opened Tables

  const Sides: seq<Role> := [Favorite, Underdog]

  function TmGame(r: Role): Col { Side(Name("Tm./Game"), r) }
  function OppGame(r: Role): Col { Side(Name("Opp./Game"), r) }
  function PtsDiff(r: Role): Col { Side(Name("PtsDiff"), r) }

  lemma PointsLabelsDiffer(r: Role, s: Role)
    ensures PtsDiff(r) != TmGame(s) && PtsDiff(r) != OppGame(s) && TmGame(r) != OppGame(s)
  {
    assert "PtsDiff"[0] != "Tm./Game"[0] && "PtsDiff"[0] != "Opp./Game"[0] && "Tm./Game"[0] != "Opp./Game"[0];
  }

  // ---------------------------------------------------------------------------
  // A differential column

  /** Row by row: the cell under `n` becomes `a - b`, and the cells under
      `a` and `b` go. The first row whose subtraction raises decides the
      error. */
  function DiffRows(rows: seq<Row>, n: Col, a: Col, b: Col): (r: Result<seq<Row>>)
    requires n != a && n != b
    ensures r.Ok? <==> forall i :: 0 <= i < |rows| ==> Sub(Get(rows[i], a), Get(rows[i], b)).Ok?
    ensures r.Ok? ==> |r.value| == |rows|
    ensures r.Ok? ==> forall i, c :: 0 <= i < |rows| ==>
      Get(r.value[i], c) == (if c == n then Sub(Get(rows[i], a), Get(rows[i], b)).value
       else if c == a || c == b then Null
       else Get(rows[i], c))
  {
    if |rows| == 0 then Ok([])
    else
      var d :- Sub(Get(rows[0], a), Get(rows[0], b));
      var rest :- DiffRows(rows[1..], n, a, b);
      Ok([(rows[0] - {a, b})[n := d]] + rest)
  }

  /** `t[n] = t[a] - t[b]`, then `a` and `b` are dropped. Reading `a`
      raises before reading `b`. */
  function Differential(t: Table, n: Col, a: Col, b: Col): (r: Result<Table>)
    requires n != a && n != b
    ensures r.Ok? <==> (a in t.cols && b in t.cols
      && forall i :: 0 <= i < |t.rows| ==> Sub(Get(t.rows[i], a), Get(t.rows[i], b)).Ok?)
    ensures a !in t.cols ==> r == Err(KeyError(Spell(a)))
    ensures a in t.cols && b !in t.cols ==> r == Err(KeyError(Spell(b)))
    ensures r.Ok? ==> |r.value.rows| == |t.rows|
    ensures r.Ok? ==> forall c :: c in r.value.cols <==> (c in t.cols || c == n) && c != a && c != b
  {
    if a !in t.cols then Err(KeyError(Spell(a)))
    else if b !in t.cols then Err(KeyError(Spell(b)))
    else
      var rows :- DiffRows(t.rows, n, a, b);
      Ok(Table(Without(if n in t.cols then t.cols else t.cols + [n], [a, b]), rows))
  }

  /** The labels keep their order; a new `n` comes last. */
  lemma DifferentialOrder(t: Table, n: Col, a: Col, b: Col)
    requires n != a && n != b
    requires Differential(t, n, a, b).Ok?
    ensures Differential(t, n, a, b).value.cols == Without(if n in t.cols then t.cols else t.cols + [n], [a, b])
  {}

  /** Row `i` of the result holds the difference under `n`, nothing under
      `a` and `b`, and every other cell unchanged. */
  lemma DifferentialCell(t: Table, n: Col, a: Col, b: Col, i: nat, c: Col)
    requires n != a && n != b
    requires Differential(t, n, a, b).Ok? && i < |t.rows|
    ensures Get(Differential(t, n, a, b).value.rows[i], c) ==
      (if c == n then Sub(Get(t.rows[i], a), Get(t.rows[i], b)).value
       else if c == a || c == b then Null
       else Get(t.rows[i], c))
  {}

  /** The same labels as assigning the difference and dropping the two
      columns with the general table operations. */
  lemma DifferentialByPartsCols(t: Table, n: Col, a: Col, b: Col)
    requires n != a && n != b && a in t.cols && b in t.cols
    requires SubAll(Column(t, a), Column(t, b)).Ok?
    ensures var u := Drop(Assign(t, n, SubAll(Column(t, a), Column(t, b)).value), [a, b]);
      && Differential(t, n, a, b).Ok? && u.Ok?
      && u.value.cols == Differential(t, n, a, b).value.cols
  {
    var t1 := Assign(t, n, SubAll(Column(t, a), Column(t, b)).value);
    assert a in t1.cols && b in t1.cols;
  }

  /** The same cells as assigning the difference and dropping the two
      columns with the general table operations. */
  lemma DifferentialByParts(t: Table, n: Col, a: Col, b: Col, i: nat, c: Col)
    requires n != a && n != b && a in t.cols && b in t.cols
    requires SubAll(Column(t, a), Column(t, b)).Ok? && i < |t.rows|
    ensures var u := Drop(Assign(t, n, SubAll(Column(t, a), Column(t, b)).value), [a, b]);
      && Differential(t, n, a, b).Ok? && u.Ok?
      && Get(u.value.rows[i], c) == Get(Differential(t, n, a, b).value.rows[i], c)
  {
    var d := SubAll(Column(t, a), Column(t, b)).value;
    var t1 := Assign(t, n, d);
    assert a in t1.cols && b in t1.cols;
    AssignedCell(t, n, d, i, c);
    DroppedPairCell(t1, a, b, i, c);
    DifferentialCell(t, n, a, b, i, c);
  }

  lemma AssignedCell(t: Table, n: Col, d: seq<Value>, i: nat, c: Col)
    requires |d| == |t.rows| && i < |t.rows|
    ensures Get(Assign(t, n, d).rows[i], c) == if c == n then d[i] else Get(t.rows[i], c)
  {
    assert Assign(t, n, d).rows[i] == t.rows[i][n := d[i]];
  }

  lemma DroppedPairCell(t: Table, a: Col, b: Col, i: nat, c: Col)
    requires a in t.cols && b in t.cols && i < |t.rows|
    ensures Drop(t, [a, b]).Ok? && i < |Drop(t, [a, b]).value.rows|
    ensures Get(Drop(t, [a, b]).value.rows[i], c) == if c == a || c == b then Null else Get(t.rows[i], c)
  {
    var u := Drop(t, [a, b]).value;
    assert Get(u.rows[i], c) == if c == a || c == b then Null else Get(t.rows[i], c);
  }

  // ---------------------------------------------------------------------------
  // team_points_differentials

  function SideDifferential(t: Table, side: Role): Result<Table> {
    PointsLabelsDiffer(side, side);
    Differential(t, PtsDiff(side), TmGame(side), OppGame(side))
  }

  /** The labels the points differentials write or remove. */
  predicate PointsLabel(c: Col) {
    c in {PtsDiff(Favorite), PtsDiff(Underdog), TmGame(Favorite), TmGame(Underdog), OppGame(Favorite), OppGame(Underdog)}
  }

  /** `team_points_differentials`: the favorite side, then the underdog side. */
  function PointsDifferentials(t: Table): (r: Result<Table>)
    ensures r.Ok? ==> TmGame(Favorite) in t.cols && OppGame(Favorite) in t.cols
    ensures r.Ok? ==> |r.value.rows| == |t.rows|
    ensures TmGame(Favorite) !in t.cols ==> r == Err(KeyError(Spell(TmGame(Favorite))))
  {
    var f :- SideDifferential(t, Favorite);
    SideDifferential(f, Underdog)
  }

  /** Each row gains both differentials; every other cell is kept. */
  lemma PointsDifferentialsCell(t: Table, i: nat, c: Col)
    requires PointsDifferentials(t).Ok? && i < |t.rows|
    ensures var u := PointsDifferentials(t).value;
      && Sub(Get(t.rows[i], TmGame(Favorite)), Get(t.rows[i], OppGame(Favorite))) == Ok(Get(u.rows[i], PtsDiff(Favorite)))
      && Sub(Get(t.rows[i], TmGame(Underdog)), Get(t.rows[i], OppGame(Underdog))) == Ok(Get(u.rows[i], PtsDiff(Underdog)))
      && (!PointsLabel(c) ==> Get(u.rows[i], c) == Get(t.rows[i], c))
  {
    PointsLabelsDiffer(Favorite, Underdog);
    PointsLabelsDiffer(Underdog, Favorite);
    PointsLabelsDiffer(Favorite, Favorite);
    PointsLabelsDiffer(Underdog, Underdog);
    var f := SideDifferential(t, Favorite).value;
    DifferentialCell(t, PtsDiff(Favorite), TmGame(Favorite), OppGame(Favorite), i, c);
    DifferentialCell(t, PtsDiff(Favorite), TmGame(Favorite), OppGame(Favorite), i, TmGame(Underdog));
    DifferentialCell(t, PtsDiff(Favorite), TmGame(Favorite), OppGame(Favorite), i, OppGame(Underdog));
    DifferentialCell(f, PtsDiff(Underdog), TmGame(Underdog), OppGame(Underdog), i, c);
    DifferentialCell(f, PtsDiff(Underdog), TmGame(Underdog), OppGame(Underdog), i, PtsDiff(Favorite));
  }

  /** The four source columns are replaced by the two differentials. */
  lemma PointsDifferentialsCols(t: Table, c: Col)
    requires PointsDifferentials(t).Ok?
    ensures var u := PointsDifferentials(t).value;
      && PtsDiff(Favorite) in u.cols && PtsDiff(Underdog) in u.cols
      && TmGame(Favorite) !in u.cols && OppGame(Favorite) !in u.cols
      && TmGame(Underdog) !in u.cols && OppGame(Underdog) !in u.cols
      && (c in t.cols && !PointsLabel(c) ==> c in u.cols)
  {
    PointsLabelsDiffer(Favorite, Underdog);
    PointsLabelsDiffer(Underdog, Favorite);
    PointsLabelsDiffer(Favorite, Favorite);
    PointsLabelsDiffer(Underdog, Underdog);
    var f := SideDifferential(t, Favorite).value;
    var u := SideDifferential(f, Underdog).value;
    assert PtsDiff(Favorite) in f.cols && c in t.cols && !PointsLabel(c) ==> c in f.cols;
  }

  /** The source columns are gone after one pass, so a second pass raises
      KeyError on `Tm./Game_Favorite`. */
  lemma PointsDifferentialsOnce(t: Table)
    requires PointsDifferentials(t).Ok?
    ensures PointsDifferentials(PointsDifferentials(t).value) == Err(KeyError(Spell(TmGame(Favorite))))
  {
    PointsDifferentialsCols(t, TmGame(Favorite));
  }

  // ---------------------------------------------------------------------------
  // bidirectional_rounds_str_numeric

  /** pandas gives a column the `object` dtype when it holds text, or when
      it holds nothing but missing cells. */
  predicate ObjectDtype(vs: seq<Value>) {
    (exists i :: 0 <= i < |vs| && vs[i].Str?) || (forall i :: 0 <= i < |vs| ==> vs[i] == Null)
  }

  /** `Series.replace(m)`: cells that are keys of `m` are replaced. */
  function ReplaceCells(vs: seq<Value>, m: map<Value, Value>): (r: seq<Value>)
    ensures |r| == |vs|
    ensures forall i :: 0 <= i < |vs| ==> r[i] == if vs[i] in m then m[vs[i]] else vs[i]
  {
    seq(|vs|, i requires 0 <= i < |vs| => if vs[i] in m then m[vs[i]] else vs[i])
  }

  /** `bidirectional_rounds_str_numeric`: a text Round column is mapped with
      `toNumber`, a numeric one with `toText`; nothing else changes. */
  function ConvertRounds(t: Table, toNumber: map<Value, Value>, toText: map<Value, Value>): (r: Result<Table>)
    ensures r.Err? <==> RoundCol !in t.cols
    ensures r.Err? ==> r.error == KeyError("Round")
    ensures r.Ok? ==> r.value.cols == t.cols && |r.value.rows| == |t.rows|
    ensures r.Ok? ==> var m := if ObjectDtype(Column(t, RoundCol)) then toNumber else toText;
      forall i :: 0 <= i < |t.rows| ==> r.value.rows[i] == t.rows[i][RoundCol :=
        if Get(t.rows[i], RoundCol) in m then m[Get(t.rows[i], RoundCol)] else Get(t.rows[i], RoundCol)]
  {
    var vs :- Lookup(t, RoundCol);
    var m := if ObjectDtype(vs) then toNumber else toText;
    Ok(Assign(t, RoundCol, ReplaceCells(vs, m)))
  }

  /** Round labels mapped to numbers and back are restored when the two
      lookup tables are inverse on them. */
  lemma RoundsRoundTrip(t: Table, toNumber: map<Value, Value>, toText: map<Value, Value>)
    requires RoundCol in t.cols && |t.rows| > 0
    requires forall i :: 0 <= i < |t.rows| ==> RoundCol in t.rows[i]
    requires forall i :: 0 <= i < |t.rows| ==> var v := t.rows[i][RoundCol];
      v.Str? && v in toNumber && toNumber[v].Int? && toNumber[v] in toText && toText[toNumber[v]] == v
    ensures ConvertRounds(t, toNumber, toText).Ok?
    ensures ConvertRounds(ConvertRounds(t, toNumber, toText).value, toNumber, toText) == Ok(t)
  {
    var vs := Column(t, RoundCol);
    assert vs[0].Str?;
    var u := ConvertRounds(t, toNumber, toText).value;
    var us := Column(u, RoundCol);
    forall i | 0 <= i < |us|
      ensures us[i].Int?
    {
      assert us[i] == toNumber[vs[i]];
    }
    assert !ObjectDtype(us) by {
      assert !us[0].Str? && us[0] != Null;
    }
    var w := ConvertRounds(u, toNumber, toText).value;
    assert w.rows == t.rows by {
      forall i | 0 <= i < |t.rows|
        ensures w.rows[i] == t.rows[i]
      {
        assert w.rows[i] == t.rows[i][RoundCol := t.rows[i][RoundCol]];
      }
    }
  }

  // ---------------------------------------------------------------------------
  // matchups_to_underdog_relative

  /** The label with every `_Favorite`/`_Underdog` suffix removed. */
  function Base(c: Col): Col {
    match c
    case Name(_) => c
    case Side(of, r) => if r == Favorite || r == Underdog then Base(of) else Side(Base(of), r)
  }

  /** `s` without repeats, each element at its first position. */
  function Uniq(s: seq<Col>): (r: seq<Col>)
    ensures Distinct(r)
    ensures forall c :: c in r <==> c in s
  {
    if |s| == 0 then []
    else
      var u := Uniq(s[..|s| - 1]);
      assert forall c :: c in s <==> c in s[..|s| - 1] || c == s[|s| - 1];
      if s[|s| - 1] in u then u else u + [s[|s| - 1]]
  }

  function BaseAll(cols: seq<Col>): (r: seq<Col>)
    ensures |r| == |cols| && forall i :: 0 <= i < |cols| ==> r[i] == Base(cols[i])
  {
    seq(|cols|, i requires 0 <= i < |cols| => Base(cols[i]))
  }

  const Unrelated: seq<Col> := [RoundCol, SeedCol, UpsetCol]

  /** The base names made relative: one per base label of the table, in
      order of first appearance, minus Round, Seed and Underdog_Upset. */
  function RelBases(cols: seq<Col>): (r: seq<Col>)
    ensures Distinct(r)
    ensures forall b :: b in r <==> b !in Unrelated && exists c :: c in cols && Base(c) == b
  {
    var bs := Uniq(BaseAll(cols));
    assert forall b :: b in bs <==> exists c :: c in cols && Base(c) == b by {
      forall b ensures b in bs <==> exists c :: c in cols && Base(c) == b {
        if b in bs {
          var i :| 0 <= i < |cols| && BaseAll(cols)[i] == b;
          assert cols[i] in cols;
        }
      }
    }
    Without(bs, Unrelated)
  }

  function RelCol(b: Col): Col {
    Name("Underdog_Rel_" + Spell(b))
  }

  /** Labels the conversion of bases `bs` writes or removes. */
  predicate Touched(c: Col, bs: seq<Col>) {
    exists b :: b in bs && (c == Side(b, Underdog) || c == Side(b, Favorite) || c == RelCol(b))
  }

  predicate HasSides(t: Table, bs: seq<Col>) {
    forall b :: b in bs ==> Side(b, Underdog) in t.cols && Side(b, Favorite) in t.cols
  }

  predicate NumericSides(t: Table, bs: seq<Col>) {
    forall b, i :: b in bs && 0 <= i < |t.rows| ==>
      !Get(t.rows[i], Side(b, Underdog)).Str? && !Get(t.rows[i], Side(b, Favorite)).Str?
  }

  /** Base `b` is the only one of `bs` whose relative label is `RelCol(b)`. */
  predicate OwnRelCol(b: Col, bs: seq<Col>) {
    forall b' :: b' in bs && b' != b ==> RelCol(b') != RelCol(b)
  }

  /** One base: `Underdog_Rel_<b> = <b>_Underdog - <b>_Favorite`, then the
      two side columns go. */
  function RelStep(t: Table, b: Col): Result<Table> {
    Differential(t, RelCol(b), Side(b, Underdog), Side(b, Favorite))
  }

  /** The loop of `matchups_to_underdog_relative` over bases `bs`. */
  function RelativeFold(t: Table, bs: seq<Col>): (r: Result<Table>)
    ensures r.Ok? ==> |r.value.rows| == |t.rows|
    decreases |bs|
  {
    if |bs| == 0 then Ok(t)
    else
      var t2 :- RelStep(t, bs[0]);
      RelativeFold(t2, bs[1..])
  }

  /** The loop succeeds only when every base has both sides. */
  lemma {:induction false} RelativeFoldNeedsSides(t: Table, bs: seq<Col>)
    ensures RelativeFold(t, bs).Ok? ==> HasSides(t, bs)
    decreases |bs|
  {
    if |bs| > 0 && RelativeFold(t, bs).Ok? {
      var b := bs[0];
      var t2 := RelStep(t, b).value;
      RelativeFoldNeedsSides(t2, bs[1..]);
      forall b' | b' in bs
        ensures Side(b', Underdog) in t.cols && Side(b', Favorite) in t.cols
      {
        if b' != b {
          assert b' in bs[1..];
        }
      }
    }
  }

  /** One step leaves the sides of the other bases as they were. */
  lemma RelStepKeepsSides(t: Table, b: Col, bs: seq<Col>)
    requires RelStep(t, b).Ok? && b !in bs
    ensures HasSides(t, bs) ==> HasSides(RelStep(t, b).value, bs)
    ensures NumericSides(t, bs) ==> NumericSides(RelStep(t, b).value, bs)
  {
    RelStepKeepsLabels(t, b, bs);
    RelStepKeepsCells(t, b, bs);
  }

  lemma RelStepKeepsLabels(t: Table, b: Col, bs: seq<Col>)
    requires RelStep(t, b).Ok? && b !in bs
    ensures HasSides(t, bs) ==> HasSides(RelStep(t, b).value, bs)
  {
    var t2 := RelStep(t, b).value;
    assert forall b' :: b' in bs ==> RelCol(b) != Side(b', Underdog) && RelCol(b) != Side(b', Favorite);
  }

  lemma RelStepKeepsCells(t: Table, b: Col, bs: seq<Col>)
    requires RelStep(t, b).Ok? && b !in bs
    ensures NumericSides(t, bs) ==> NumericSides(RelStep(t, b).value, bs)
  {
    var t2 := RelStep(t, b).value;
    forall b', i | b' in bs && 0 <= i < |t.rows|
      ensures Get(t2.rows[i], Side(b', Underdog)) == Get(t.rows[i], Side(b', Underdog))
      ensures Get(t2.rows[i], Side(b', Favorite)) == Get(t.rows[i], Side(b', Favorite))
    {
      RelStepCell(t, b, b', i);
    }
    SameSidesNumeric(t, t2, bs);
  }

  lemma SameSidesNumeric(t: Table, t2: Table, bs: seq<Col>)
    requires |t2.rows| == |t.rows|
    requires forall b', i :: b' in bs && 0 <= i < |t.rows| ==>
      Get(t2.rows[i], Side(b', Underdog)) == Get(t.rows[i], Side(b', Underdog))
      && Get(t2.rows[i], Side(b', Favorite)) == Get(t.rows[i], Side(b', Favorite))
    ensures NumericSides(t, bs) ==> NumericSides(t2, bs)
  {
  }

  lemma RelStepCell(t: Table, b: Col, b': Col, i: nat)
    requires RelStep(t, b).Ok? && b' != b && i < |t.rows|
    ensures Get(RelStep(t, b).value.rows[i], Side(b', Underdog)) == Get(t.rows[i], Side(b', Underdog))
    ensures Get(RelStep(t, b).value.rows[i], Side(b', Favorite)) == Get(t.rows[i], Side(b', Favorite))
  {
    DifferentialCell(t, RelCol(b), Side(b, Underdog), Side(b, Favorite), i, Side(b', Underdog));
    DifferentialCell(t, RelCol(b), Side(b, Underdog), Side(b, Favorite), i, Side(b', Favorite));
  }

  /** Distinct bases with both sides present and numeric always succeed. */
  lemma {:induction false} RelativeFoldSucceeds(t: Table, bs: seq<Col>)
    ensures Distinct(bs) && HasSides(t, bs) && NumericSides(t, bs) ==> RelativeFold(t, bs).Ok?
    decreases |bs|
  {
    if |bs| > 0 && Distinct(bs) && HasSides(t, bs) && NumericSides(t, bs) {
      var b := bs[0];
      assert RelStep(t, b).Ok?;
      assert b !in bs[1..];
      assert HasSides(t, bs[1..]) && NumericSides(t, bs[1..]) by {
        assert forall b' :: b' in bs[1..] ==> b' in bs;
      }
      RelStepKeepsSides(t, b, bs[1..]);
      assert Distinct(bs[1..]);
      RelativeFoldSucceeds(RelStep(t, b).value, bs[1..]);
    }
  }

  /** Cells under labels the loop does not touch are kept. */
  lemma {:induction false} RelativeFoldKeeps(t: Table, bs: seq<Col>, i: nat, c: Col)
    requires RelativeFold(t, bs).Ok? && i < |t.rows| && !Touched(c, bs)
    ensures Get(RelativeFold(t, bs).value.rows[i], c) == Get(t.rows[i], c)
    decreases |bs|
  {
    if |bs| > 0 {
      var b := bs[0];
      var t2 := RelStep(t, b).value;
      assert !Touched(c, bs[1..]) by {
        assert forall b' :: b' in bs[1..] ==> b' in bs;
      }
      RelativeFoldKeeps(t2, bs[1..], i, c);
      DifferentialCell(t, RelCol(b), Side(b, Underdog), Side(b, Favorite), i, c);
    }
  }

  /** Labels the loop does not touch stay in the table. */
  lemma {:induction false} RelativeFoldKeepsCol(t: Table, bs: seq<Col>, c: Col)
    requires RelativeFold(t, bs).Ok? && !Touched(c, bs) && c in t.cols
    ensures c in RelativeFold(t, bs).value.cols
    decreases |bs|
  {
    if |bs| > 0 {
      assert !Touched(c, bs[1..]) by {
        assert forall b' :: b' in bs[1..] ==> b' in bs;
      }
      RelativeFoldKeepsCol(RelStep(t, bs[0]).value, bs[1..], c);
    }
  }

  /** After the loop each base has its relative column and has lost both
      side columns. */
  lemma {:induction false} RelativeFoldCols(t: Table, bs: seq<Col>, b: Col)
    requires RelativeFold(t, bs).Ok? && b in bs
    ensures var u := RelativeFold(t, bs).value;
      RelCol(b) in u.cols && Side(b, Underdog) !in u.cols && Side(b, Favorite) !in u.cols
    decreases |bs|
  {
    var t2 := RelStep(t, bs[0]).value;
    if b == bs[0] {
      RelativeFoldKeepsPlain(t2, bs[1..], RelCol(b));
      RelativeFoldGone(t2, bs[1..], Side(b, Underdog));
      RelativeFoldGone(t2, bs[1..], Side(b, Favorite));
    } else {
      RelativeFoldCols(t2, bs[1..], b);
    }
  }

  /** The loop never removes a plain label. */
  lemma {:induction false} RelativeFoldKeepsPlain(t: Table, bs: seq<Col>, c: Col)
    requires RelativeFold(t, bs).Ok? && c.Name? && c in t.cols
    ensures c in RelativeFold(t, bs).value.cols
    decreases |bs|
  {
    if |bs| > 0 {
      RelativeFoldKeepsPlain(RelStep(t, bs[0]).value, bs[1..], c);
    }
  }

  /** The loop never adds a side label. */
  lemma {:induction false} RelativeFoldGone(t: Table, bs: seq<Col>, c: Col)
    requires RelativeFold(t, bs).Ok? && c.Side? && c !in t.cols
    ensures c !in RelativeFold(t, bs).value.cols
    decreases |bs|
  {
    if |bs| > 0 {
      RelativeFoldGone(RelStep(t, bs[0]).value, bs[1..], c);
    }
  }

  /** Each relative column holds underdog minus favorite, provided no other
      base spells the same relative label. */
  lemma {:induction false} RelativeFoldWrites(t: Table, bs: seq<Col>, b: Col, i: nat)
    requires Distinct(bs) && RelativeFold(t, bs).Ok?
    requires b in bs && OwnRelCol(b, bs) && i < |t.rows|
    ensures Sub(Get(t.rows[i], Side(b, Underdog)), Get(t.rows[i], Side(b, Favorite)))
      == Ok(Get(RelativeFold(t, bs).value.rows[i], RelCol(b)))
    decreases |bs|
  {
    var b0 := bs[0];
    var t2 := RelStep(t, b0).value;
    if b == b0 {
      DifferentialCell(t, RelCol(b), Side(b, Underdog), Side(b, Favorite), i, RelCol(b));
      OwnRelUntouched(b, bs);
      RelativeFoldKeeps(t2, bs[1..], i, RelCol(b));
    } else {
      OwnRelTail(b, bs);
      DifferentialCell(t, RelCol(b0), Side(b0, Underdog), Side(b0, Favorite), i, Side(b, Underdog));
      DifferentialCell(t, RelCol(b0), Side(b0, Underdog), Side(b0, Favorite), i, Side(b, Favorite));
      RelativeFoldWrites(t2, bs[1..], b, i);
    }
  }

  /** No later base touches the first base's own relative label. */
  lemma OwnRelUntouched(b: Col, bs: seq<Col>)
    requires Distinct(bs) && |bs| > 0 && b == bs[0] && OwnRelCol(b, bs)
    ensures !Touched(RelCol(b), bs[1..])
  {
    forall b' | b' in bs[1..]
      ensures RelCol(b) != Side(b', Underdog) && RelCol(b) != Side(b', Favorite) && RelCol(b) != RelCol(b')
    {
      assert b' in bs && b' != b by {
        var k :| 1 <= k < |bs| && bs[k] == b';
      }
    }
  }

  /** A later base keeps its own relative label among the rest. */
  lemma OwnRelTail(b: Col, bs: seq<Col>)
    requires Distinct(bs) && |bs| > 0 && b in bs && b != bs[0] && OwnRelCol(b, bs)
    ensures b in bs[1..] && Distinct(bs[1..]) && OwnRelCol(b, bs[1..])
  {
    assert b in bs[1..];
    assert Distinct(bs[1..]);
    assert forall b' :: b' in bs[1..] ==> b' in bs;
  }

  /** `matchups_to_underdog_relative`: each base with both sides becomes
      `Underdog_Rel_<base>` = underdog − favorite, its two side columns
      go, and a base missing a side raises. */
  function UnderdogRelative(t: Table): (r: Result<Table>)
    ensures r.Ok? ==> |r.value.rows| == |t.rows|
    ensures r.Ok? ==> HasSides(t, RelBases(t.cols))
    ensures HasSides(t, RelBases(t.cols)) && NumericSides(t, RelBases(t.cols)) ==> r.Ok?
  {
    RelativeFoldNeedsSides(t, RelBases(t.cols));
    RelativeFoldSucceeds(t, RelBases(t.cols));
    RelativeFold(t, RelBases(t.cols))
  }

  /** No relative label is spelled `Round` or `Underdog_Upset`. */
  lemma RelColNotPlain(b: Col)
    ensures RelCol(b) != RoundCol && RelCol(b) != UpsetCol
  {
    var p := "Underdog_Rel_" + Spell(b);
    assert p[9] == 'R' && |p| > |"Round"|;
    assert "Underdog_Upset"[9] == 'U';
  }

  /** Round, both seed columns and the target are never rewritten. */
  lemma UnrelatedUntouched(cols: seq<Col>, c: Col)
    requires c in [RoundCol, Side(SeedCol, Favorite), Side(SeedCol, Underdog), UpsetCol]
    ensures !Touched(c, RelBases(cols))
  {
    forall b | b in RelBases(cols)
      ensures c != Side(b, Underdog) && c != Side(b, Favorite) && c != RelCol(b)
    {
      RelColNotPlain(b);
    }
  }

  /** A plain column with no `_Favorite`/`_Underdog` partner, other than the
      excluded ones, makes the conversion raise. */
  lemma UnpairedColumnRaises(t: Table, n: string)
    requires Name(n) in t.cols && Name(n) !in Unrelated
    requires Side(Name(n), Underdog) !in t.cols
    ensures UnderdogRelative(t).Err?
  {
    assert Name(n) in RelBases(t.cols) by { assert Base(Name(n)) == Name(n); }
  }

  // ---------------------------------------------------------------------------
  // scale_features (shape only)

  /** A fitted scaler: the scaled value of column `c` in row `i`, fitted on
      the whole frame it is given. */
  type Scaler = (Table, Col, nat) -> real

  /** Row `i` with every label of `cols` rescaled. */
  function ScaledRow(t: Table, scaler: Scaler, cols: seq<Col>, i: nat): (r: Row)
    ensures forall c :: Get(r, c) == if c in cols then Num(scaler(t, c, i)) else Null
  {
    if |cols| == 0 then map[]
    else
      assert forall c :: c in cols <==> c == cols[0] || c in cols[1..];
      ScaledRow(t, scaler, cols[1..], i)[cols[0] := Num(scaler(t, cols[0], i))]
  }

  /** `scaler.fit_transform` framed with the original labels and rows. */
  function Rescale(t: Table, scaler: Scaler): (r: Table)
    ensures r.cols == t.cols && |r.rows| == |t.rows|
    ensures forall i, c :: 0 <= i < |t.rows| && c in t.cols ==> Get(r.rows[i], c) == Num(scaler(t, c, i))
  {
    Table(t.cols, MapSeq(Positions(|t.rows|), i => ScaledRow(t, scaler, t.cols, i)))
  }

  /** `scale_features`: every column but the target is rescaled, the target
      is reattached unscaled as the last column, and rows keep their
      positions. Without a target the whole frame is rescaled. */
  function ScaleFeatures(t: Table, scaler: Scaler): (r: Table)
    ensures r.cols == Without(t.cols, [UpsetCol]) + (if UpsetCol in t.cols then [UpsetCol] else [])
    ensures |r.rows| == |t.rows|
  {
    if UpsetCol in t.cols then
      var x := Drop(t, [UpsetCol]).value;
      var target := Select(t, [UpsetCol]).value;
      assert forall c :: c in target.cols ==> c !in x.cols;
      ConcatCols(Rescale(x, scaler), target).value
    else
      WithoutNothing(t.cols, [UpsetCol]);
      Rescale(t, scaler)
  }

  /** The target keeps its values and every feature cell is a rescaled
      number. */
  lemma ScaleFeaturesCell(t: Table, scaler: Scaler, i: nat, c: Col)
    requires i < |t.rows| && c in t.cols
    ensures UpsetCol in t.cols ==> Get(ScaleFeatures(t, scaler).rows[i], UpsetCol) == Get(t.rows[i], UpsetCol)
    ensures c != UpsetCol ==> Get(ScaleFeatures(t, scaler).rows[i], c).Num?
  {
    ScaledTargetCell(t, scaler, i);
    if c != UpsetCol {
      ScaledFeatureCell(t, scaler, i, c);
    }
  }

  lemma ScaledTargetCell(t: Table, scaler: Scaler, i: nat)
    requires i < |t.rows|
    ensures UpsetCol in t.cols ==> Get(ScaleFeatures(t, scaler).rows[i], UpsetCol) == Get(t.rows[i], UpsetCol)
  {
    if UpsetCol in t.cols {
      var target := Select(t, [UpsetCol]).value;
      assert Get(RowAt(target.rows, i), UpsetCol) == Get(t.rows[i], UpsetCol);
    }
  }

  lemma ScaledFeatureCell(t: Table, scaler: Scaler, i: nat, c: Col)
    requires i < |t.rows| && c in t.cols && c != UpsetCol
    ensures Get(ScaleFeatures(t, scaler).rows[i], c).Num?
  {
    if UpsetCol in t.cols {
      var x := Drop(t, [UpsetCol]).value;
      assert Get(RowAt(Rescale(x, scaler).rows, i), c).Num?;
    }
  }
}
