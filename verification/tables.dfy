/** DataFrames as sequences of records.

    A column label is structured: a plain name, or a label followed by one
    of the suffixes pandas and the pipeline attach (`_Favorite`,
    `_Underdog`, and merge's default `_x`/`_y`). `Spell` spells a label the
    way pandas shows it. Rows map labels to cells; a label missing from a
    row reads as a missing cell, which is how `pd.concat` pads tables with
    different columns. The row index is the position in `rows`: every table
    the pipeline indexes by label has been reindexed densely first, and
    every merge returns a fresh dense index. */
module Tables {

  import opened Results
  import opened Text

  datatype Role = Favorite | Underdog | LeftDup | RightDup

  datatype Col = Name(name: string) | Side(of: Col, role: Role)

  /** A cell: numbers, text, or a missing value (Python `None`). */
  datatype Value = Int(i: int) | Num(r: real) | Str(s: string) | Null

  type Row = map<Col, Value>

  datatype Table = Table(cols: seq<Col>, rows: seq<Row>)

  /** A classifier output or a 0/1 flag. */
  type Bit = b: int | 0 <= b <= 1

  function RoleText(r: Role): string {
    match r
    case Favorite => "_Favorite"
    case Underdog => "_Underdog"
    case LeftDup => "_x"
    case RightDup => "_y"
  }

  /** The label as pandas spells it. */
  function Spell(c: Col): string {
    match c
    case Name(n) => n
    case Side(of, r) => Spell(of) + RoleText(r)
  }

  function Fav(n: string): Col { Side(Name(n), Favorite) }
  function Und(n: string): Col { Side(Name(n), Underdog) }

  // Labels shared across the pipeline.
  const SeedCol: Col := Name("Seed")
  const TeamCol: Col := Name("Team")
  const ScoreCol: Col := Name("Score")
  const Seed1Col: Col := Name("Seed.1")
  const Team1Col: Col := Name("Team.1")
  const Score1Col: Col := Name("Score.1")
  const RoundCol: Col := Name("Round")
  const UpsetCol: Col := Name("Underdog_Upset")
  const SchoolCol: Col := Name("School")
  const CoachTeamCol: Col := Name("Coach_Team")

  function Get(row: Row, c: Col): Value {
    if c in row then row[c] else Null
  }

  // Row-wise helpers are recursive, so that callers reason from their
  // contracts rather than from unfolded bodies.

  function ColumnOf(rows: seq<Row>, c: Col): (v: seq<Value>)
    ensures |v| == |rows|
    ensures forall i :: 0 <= i < |rows| ==> v[i] == Get(rows[i], c)
  {
    if |rows| == 0 then [] else [Get(rows[0], c)] + ColumnOf(rows[1..], c)
  }

  function Column(t: Table, c: Col): (v: seq<Value>)
    ensures |v| == |t.rows|
    ensures forall i :: 0 <= i < |t.rows| ==> v[i] == Get(t.rows[i], c)
  {
    ColumnOf(t.rows, c)
  }

  function SetAll(rows: seq<Row>, c: Col, vals: seq<Value>): (r: seq<Row>)
    requires |vals| == |rows|
    ensures |r| == |rows|
    ensures forall i :: 0 <= i < |rows| ==> r[i] == rows[i][c := vals[i]]
  {
    if |rows| == 0 then [] else [rows[0][c := vals[0]]] + SetAll(rows[1..], c, vals[1..])
  }

  /** The row without the labels `cs`. */
  function RemoveKeys(m: Row, cs: seq<Col>): (r: Row)
    ensures forall k :: k in r <==> k in m && k !in cs
    ensures forall k :: Get(r, k) == if k in cs then Null else Get(m, k)
  {
    if |cs| == 0 then m else RemoveKeys(m - {cs[0]}, cs[1..])
  }

  function RemoveAll(rows: seq<Row>, cs: seq<Col>): (r: seq<Row>)
    ensures |r| == |rows|
    ensures forall i :: 0 <= i < |rows| ==> r[i] == RemoveKeys(rows[i], cs)
  {
    if |rows| == 0 then [] else [RemoveKeys(rows[0], cs)] + RemoveAll(rows[1..], cs)
  }

  /** The row cut down to the labels `cs`. */
  function Restrict(m: Row, cs: seq<Col>): (r: Row)
    ensures forall k :: k in r <==> k in m && k in cs
    ensures forall k :: Get(r, k) == if k in cs then Get(m, k) else Null
  {
    if |cs| == 0 then map[]
    else
      var rest := Restrict(m, cs[1..]);
      if cs[0] in m then rest[cs[0] := m[cs[0]]] else rest
  }

  function RestrictAll(rows: seq<Row>, cs: seq<Col>): (r: seq<Row>)
    ensures |r| == |rows|
    ensures forall i :: 0 <= i < |rows| ==> r[i] == Restrict(rows[i], cs)
  {
    if |rows| == 0 then [] else [Restrict(rows[0], cs)] + RestrictAll(rows[1..], cs)
  }

  function Empty(): Table {
    Table([], [])
  }

  /** `DataFrame.empty`: no rows or no columns. */
  predicate IsEmpty(t: Table) {
    |t.rows| == 0 || |t.cols| == 0
  }

  predicate Distinct<T(==)>(s: seq<T>) {
    forall i, j :: 0 <= i < j < |s| ==> s[i] != s[j]
  }

  function ColSet(cols: seq<Col>): set<Col> {
    set c | c in cols
  }

  /** Labels unique and every row carrying exactly the table's labels. */
  predicate WellFormed(t: Table) {
    Distinct(t.cols) && forall i :: 0 <= i < |t.rows| ==> t.rows[i].Keys == ColSet(t.cols)
  }

  /** The elements of `s` not in `xs`, in order. */
  function Without(s: seq<Col>, xs: seq<Col>): (r: seq<Col>)
    ensures forall x :: x in r <==> x in s && x !in xs
    ensures |r| <= |s|
    ensures Distinct(s) ==> Distinct(r)
  {
    if |s| == 0 then []
    else if s[0] in xs then Without(s[1..], xs)
    else [s[0]] + Without(s[1..], xs)
  }

  lemma WithoutNothing(s: seq<Col>, xs: seq<Col>)
    requires forall x :: x in s ==> x !in xs
    ensures Without(s, xs) == s
  {}

  /** The first label of `want` missing from `cols`, if any. */
  function FirstMissing(cols: seq<Col>, want: seq<Col>): (r: Option<Col>)
    ensures r.None? <==> forall c :: c in want ==> c in cols
    ensures r.Some? ==> r.value in want && r.value !in cols
  {
    if |want| == 0 then None
    else if want[0] !in cols then Some(want[0])
    else FirstMissing(cols, want[1..])
  }

  /** Reading `row[c]` for each `c` in `cs`: the first missing label raises
      KeyError. */
  function Need(cols: seq<Col>, cs: seq<Col>): (r: Result<()>)
    ensures r.Ok? <==> forall c :: c in cs ==> c in cols
    ensures r.Err? ==> r.error.KeyError?
  {
    match FirstMissing(cols, cs)
    case Some(c) => Err(KeyError(Spell(c)))
    case None => Ok(())
  }

  /** `df[c]`. */
  function Lookup(t: Table, c: Col): (r: Result<seq<Value>>)
    ensures r.Ok? <==> c in t.cols
    ensures r.Ok? ==> r.value == Column(t, c)
    ensures r.Err? ==> r == Err(KeyError(Spell(c)))
  {
    if c in t.cols then Ok(Column(t, c)) else Err(KeyError(Spell(c)))
  }

  /** `df[c] = vals`: overwrite the column in place, or append it. */
  function Assign(t: Table, c: Col, vals: seq<Value>): (r: Table)
    requires |vals| == |t.rows|
    ensures r.cols == if c in t.cols then t.cols else t.cols + [c]
    ensures |r.rows| == |t.rows|
    ensures forall i :: 0 <= i < |t.rows| ==> r.rows[i] == t.rows[i][c := vals[i]]
  {
    Table(if c in t.cols then t.cols else t.cols + [c], SetAll(t.rows, c, vals))
  }

  /** `df.drop(cs, axis=1)`: every label must exist. */
  function Drop(t: Table, cs: seq<Col>): (r: Result<Table>)
    ensures r.Err? <==> exists c :: c in cs && c !in t.cols
    ensures r.Ok? ==> r.value.cols == Without(t.cols, cs) && |r.value.rows| == |t.rows|
    ensures r.Ok? ==> forall i, c :: 0 <= i < |t.rows| && c !in cs ==> Get(r.value.rows[i], c) == Get(t.rows[i], c)
  {
    match FirstMissing(t.cols, cs)
    case Some(c) => Err(KeyError(Spell(c)))
    case None =>
      Ok(Table(Without(t.cols, cs), RemoveAll(t.rows, cs)))
  }

  /** `df[cs]`: the listed columns, in the listed order. */
  function Select(t: Table, cs: seq<Col>): (r: Result<Table>)
    ensures r.Ok? <==> (forall c :: c in cs ==> c in t.cols) && Distinct(cs)
    ensures r.Ok? ==> r.value.cols == cs && |r.value.rows| == |t.rows|
    ensures r.Ok? ==> forall i, c :: 0 <= i < |t.rows| && c in cs ==> Get(r.value.rows[i], c) == Get(t.rows[i], c)
  {
    match FirstMissing(t.cols, cs)
    case Some(c) => Err(KeyError(Spell(c)))
    case None =>
      if !Distinct(cs) then Err(DuplicateLabel(Spell(cs[0])))
      else
        Ok(Table(cs, RestrictAll(t.rows, cs)))
  }

  function Replace(s: seq<Col>, a: Col, b: Col): (r: seq<Col>)
    ensures |r| == |s|
    ensures forall i :: 0 <= i < |s| ==> r[i] == if s[i] == a then b else s[i]
  {
    if |s| == 0 then [] else [if s[0] == a then b else s[0]] + Replace(s[1..], a, b)
  }

  /** Each row with the cell under `a` moved to `b`. */
  function MoveAll(rows: seq<Row>, a: Col, b: Col): (r: seq<Row>)
    requires a != b
    ensures |r| == |rows|
    ensures forall i, c :: 0 <= i < |rows| ==> Get(r[i], c) == if c == b then Get(rows[i], a) else if c == a then Null else Get(rows[i], c)
  {
    if |rows| == 0 then [] else [(rows[0] - {a})[b := Get(rows[0], a)]] + MoveAll(rows[1..], a, b)
  }

  /** `df.rename(columns={a: b})`; a missing `a` is ignored as pandas does. */
  function RenameCol(t: Table, a: Col, b: Col): (r: Result<Table>)
    ensures r.Err? <==> a in t.cols && a != b && b in t.cols
    ensures r.Ok? ==> r.value.cols == Replace(t.cols, a, b) && |r.value.rows| == |t.rows|
    ensures r.Ok? && a in t.cols ==> forall i :: 0 <= i < |t.rows| ==> Get(r.value.rows[i], b) == Get(t.rows[i], a)
    ensures r.Ok? && a in t.cols && a != b ==> forall i, c :: 0 <= i < |t.rows| && c != a && c != b ==> Get(r.value.rows[i], c) == Get(t.rows[i], c)
  {
    if a !in t.cols || a == b then Ok(t)
    else if b in t.cols then Err(DuplicateLabel(Spell(b)))
    else Ok(Table(Replace(t.cols, a, b), MoveAll(t.rows, a, b)))
  }

  /** `pd.concat([a, b], ignore_index=True)`: rows of `a` then rows of `b`,
      labels in order of first appearance. */
  function ConcatRows(a: Table, b: Table): (r: Table)
    ensures r.rows == a.rows + b.rows
    ensures r.cols == a.cols + Without(b.cols, a.cols)
  {
    Table(a.cols + Without(b.cols, a.cols), a.rows + b.rows)
  }

  function ConcatAll(ts: seq<Table>): (r: Table)
    ensures |r.rows| == RowTotal(ts)
  {
    if |ts| == 0 then Empty() else ConcatRows(ConcatAll(ts[..|ts| - 1]), ts[|ts| - 1])
  }

  function RowTotal(ts: seq<Table>): nat {
    if |ts| == 0 then 0 else RowTotal(ts[..|ts| - 1]) + |ts[|ts| - 1].rows|
  }

  /** Row `j` of table `k` sits, after stacking, behind every row of the
      tables before it: the stack keeps the tables' order and each
      table's own row order. */
  lemma {:induction false} ConcatAllRow(ts: seq<Table>, k: nat, j: nat)
    requires k < |ts| && j < |ts[k].rows|
    ensures RowTotal(ts[..k]) + j < |ConcatAll(ts).rows|
    ensures ConcatAll(ts).rows[RowTotal(ts[..k]) + j] == ts[k].rows[j]
  {
    var n := |ts|;
    var front := ts[..n - 1];
    if k == n - 1 {
      assert ts[..k] == front;
    } else {
      ConcatAllRow(front, k, j);
      assert front[..k] == ts[..k] && front[k] == ts[k];
    }
  }

  function Max(a: nat, b: nat): nat { if a >= b then a else b }

  /** `pd.concat([a, b], axis=1)` on dense indexes: row `i` joins row `i`
      of each side; the shorter side is padded with missing cells. */
  function ConcatCols(a: Table, b: Table): (r: Result<Table>)
    ensures r.Err? <==> exists c :: c in b.cols && c in a.cols
    ensures r.Ok? ==> r.value.cols == a.cols + b.cols && |r.value.rows| == Max(|a.rows|, |b.rows|)
    ensures r.Ok? ==> forall i, c :: 0 <= i < |r.value.rows| && c in a.cols ==> Get(r.value.rows[i], c) == Get(RowAt(a.rows, i), c)
    ensures r.Ok? ==> forall i, c :: 0 <= i < |r.value.rows| && c in b.cols ==> Get(r.value.rows[i], c) == Get(RowAt(b.rows, i), c)
  {
    match FirstMissing(Without(b.cols, a.cols), b.cols)
    case Some(c) => Err(DuplicateLabel(Spell(c)))
    case None =>
      Ok(Table(a.cols + b.cols, MapSeq(Positions(Max(|a.rows|, |b.rows|)),
        i => Join(RowAt(a.rows, i), RowAt(b.rows, i), a.cols, b.cols))))
  }

  /** A cell of the left-hand table after `concat(axis=1)`. */
  lemma ConcatColsLeft(a: Table, b: Table, i: nat, c: Col)
    requires ConcatCols(a, b).Ok? && c in a.cols && i < |a.rows|
    ensures i < |ConcatCols(a, b).value.rows| && c in ConcatCols(a, b).value.cols
    ensures Get(ConcatCols(a, b).value.rows[i], c) == Get(a.rows[i], c)
  {
    assert RowAt(a.rows, i) == a.rows[i];
  }

  /** A cell of the right-hand table after `concat(axis=1)`. */
  lemma ConcatColsRight(a: Table, b: Table, i: nat, c: Col)
    requires ConcatCols(a, b).Ok? && c in b.cols && i < |b.rows|
    ensures i < |ConcatCols(a, b).value.rows| && c in ConcatCols(a, b).value.cols
    ensures Get(ConcatCols(a, b).value.rows[i], c) == Get(b.rows[i], c)
  {
    assert RowAt(b.rows, i) == b.rows[i];
  }

  function RowAt(rows: seq<Row>, i: nat): Row {
    if i < |rows| then rows[i] else map[]
  }

  /** Two rows side by side, each cut to its own labels. */
  function Join(x: Row, y: Row, xc: seq<Col>, yc: seq<Col>): (r: Row)
    ensures forall c :: c in xc && c !in yc ==> Get(r, c) == Get(x, c)
    ensures forall c :: c in yc && c !in xc ==> Get(r, c) == Get(y, c)
    ensures forall c :: c !in xc && c !in yc ==> Get(r, c) == Null
  {
    Restrict(x, xc) + Restrict(y, yc)
  }

  /** `f` applied to every element. */
  function MapSeq<A, B>(s: seq<A>, f: A -> B): (r: seq<B>)
    ensures |r| == |s|
    ensures forall i :: 0 <= i < |s| ==> r[i] == f(s[i])
  {
    if |s| == 0 then [] else [f(s[0])] + MapSeq(s[1..], f)
  }

  /** The positions `0` to `n - 1`. */
  function Positions(n: nat): (r: seq<nat>)
    ensures |r| == n
    ensures forall i :: 0 <= i < n ==> r[i] == i
  {
    if n == 0 then [] else Positions(n - 1) + [n - 1]
  }

  /** Rows satisfying `keep`, in order. */
  function FilterRows(rows: seq<Row>, keep: Row -> bool): (r: seq<Row>)
    ensures |r| <= |rows|
    ensures forall x :: x in r <==> x in rows && keep(x)
  {
    if |rows| == 0 then []
    else if keep(rows[0]) then [rows[0]] + FilterRows(rows[1..], keep)
    else FilterRows(rows[1..], keep)
  }

  /** Filtering distributes over concatenation, so survivors keep their
      input order. */
  lemma {:induction false} FilterRowsAppend(a: seq<Row>, b: seq<Row>, keep: Row -> bool)
    ensures FilterRows(a + b, keep) == FilterRows(a, keep) + FilterRows(b, keep)
    decreases |a|
  {
    if |a| == 0 {
      assert a + b == b;
    } else {
      assert (a + b)[0] == a[0];
      assert (a + b)[1..] == a[1..] + b;
      FilterRowsAppend(a[1..], b, keep);
    }
  }

  /** Filtering twice keeps the rows passing both tests. */
  lemma {:induction false} FilterRowsTwice(rows: seq<Row>, p: Row -> bool, q: Row -> bool, both: Row -> bool)
    requires forall x :: both(x) == (p(x) && q(x))
    ensures FilterRows(FilterRows(rows, p), q) == FilterRows(rows, both)
  {
    if |rows| > 0 {
      FilterRowsTwice(rows[1..], p, q, both);
    }
  }

  /** `.str` raises AttributeError on a column whose non-missing cells
      hold no text. */
  predicate NoText(vs: seq<Value>) {
    (exists i :: 0 <= i < |vs| && vs[i] != Null) && forall i :: 0 <= i < |vs| ==> !vs[i].Str?
  }

  // ---------------------------------------------------------------------------
  // Cell operations with Python semantics

  function AsReal(v: Value): Option<real> {
    match v
    case Int(i) => Some(i as real)
    case Num(r) => Some(r)
    case _ => None
  }

  /** `a < b`: numbers by value, strings lexicographically, anything else
      (mixed kinds, `None`) raises TypeError. */
  function Lt(a: Value, b: Value): (r: Result<bool>)
    ensures a.Int? && b.Int? ==> r == Ok(a.i < b.i)
    ensures a.Str? && b.Str? ==> r == Ok(LexLess(a.s, b.s))
  {
    if a.Str? && b.Str? then Ok(LexLess(a.s, b.s))
    else match (AsReal(a), AsReal(b))
      case (Some(x), Some(y)) => Ok(x < y)
      case _ => Err(TypeError)
  }

  /** `a > b`. */
  function Gt(a: Value, b: Value): Result<bool> {
    Lt(b, a)
  }

  /** Element-wise `==` as pandas applies it: numbers compare by value
      across int and float, and a missing cell equals nothing. */
  predicate PyEq(a: Value, b: Value) {
    match (AsReal(a), AsReal(b))
    case (Some(x), Some(y)) => x == y
    case _ => a != Null && a == b
  }

  /** `a == b` on two scalars read out of a row: numbers compare by value
      across int and float, anything else by identity, so two `None`
      cells are equal. */
  predicate ScalarEq(a: Value, b: Value) {
    match (AsReal(a), AsReal(b))
    case (Some(x), Some(y)) => x == y
    case _ => a == b
  }

  /** The two equalities differ only on two missing cells. */
  lemma ScalarEqOnCells(a: Value, b: Value)
    ensures ScalarEq(a, b) <==> PyEq(a, b) || (a == Null && b == Null)
  {}

  /** `a - b` on the cells of numeric columns: a missing cell is NaN and
      propagates; text raises TypeError. */
  function Sub(a: Value, b: Value): (r: Result<Value>)
    ensures r.Ok? <==> !a.Str? && !b.Str?
    ensures AsReal(a).Some? && AsReal(b).Some? ==> r.Ok? && AsReal(r.value) == Some(AsReal(a).value - AsReal(b).value)
    ensures r.Ok? && (a == Null || b == Null) ==> r.value == Null
  {
    if a.Str? || b.Str? then Err(TypeError)
    else if a.Int? && b.Int? then Ok(Int(a.i - b.i))
    else match (AsReal(a), AsReal(b))
      case (Some(x), Some(y)) => Ok(Num(x - y))
      case _ => Ok(Null)
  }

  /** Column-wise `a - b` over aligned cells. */
  function SubAll(a: seq<Value>, b: seq<Value>): (r: Result<seq<Value>>)
    requires |a| == |b|
    ensures r.Ok? <==> forall i :: 0 <= i < |a| ==> Sub(a[i], b[i]).Ok?
    ensures r.Ok? ==> |r.value| == |a| && forall i :: 0 <= i < |a| ==> Sub(a[i], b[i]) == Ok(r.value[i])
  {
    if |a| == 0 then Ok([])
    else
      match Sub(a[0], b[0])
      case Err(e) => Err(e)
      case Ok(d) =>
        match SubAll(a[1..], b[1..])
        case Err(e) => Err(e)
        case Ok(ds) => Ok([d] + ds)
  }

  // ---------------------------------------------------------------------------
  // numpy arrays built from Python lists

  /** `str` of a cell as numpy writes it into a text array. */
  function TextCell(v: Value): Value {
    match v
    case Int(i) => Str(IntText(i))
    case _ => v
  }

  predicate HasNull(cells: seq<seq<Value>>) {
    exists i, j :: 0 <= i < |cells| && 0 <= j < |cells[i]| && cells[i][j] == Null
  }

  predicate HasStr(cells: seq<seq<Value>>) {
    exists i, j :: 0 <= i < |cells| && 0 <= j < |cells[i]| && cells[i][j].Str?
  }

  /** `np.array(rows)`: a `None` makes an object array that keeps every cell;
      otherwise one text cell turns the whole array into text, so every
      integer is rendered in decimal. */
  function NumpyArray(cells: seq<seq<Value>>): (r: seq<seq<Value>>)
    ensures |r| == |cells|
    ensures forall i :: 0 <= i < |cells| ==> |r[i]| == |cells[i]|
    ensures forall i, j :: 0 <= i < |cells| && 0 <= j < |cells[i]| ==>
      r[i][j] == if !HasNull(cells) && HasStr(cells) then TextCell(cells[i][j]) else cells[i][j]
  {
    if !HasNull(cells) && HasStr(cells) then
      seq(|cells|, i requires 0 <= i < |cells| =>
        seq(|cells[i]|, j requires 0 <= j < |cells[i]| => TextCell(cells[i][j])))
    else cells
  }

  /** `astype(int)` of one cell: integers stay, floats truncate toward zero,
      decimal text is parsed, anything else raises. */
  function CastInt(v: Value): (r: Result<Value>)
    ensures r.Ok? ==> r.value.Int?
    ensures v.Int? ==> r == Ok(v)
  {
    match v
    case Int(i) => Ok(v)
    case Num(x) => Ok(Int(if x >= 0.0 then x.Floor else -((-x).Floor)))
    case Str(s) =>
      (match ParseInt(s)
       case Some(n) => Ok(Int(n))
       case None => Err(ValueError))
    case Null => Err(TypeError)
  }

  /** Writing a number into a text array and casting it back restores it. */
  lemma CastIntText(v: Value)
    requires v.Int?
    ensures CastInt(TextCell(v)) == Ok(v)
  {
    ParseIntText(v.i);
  }

  function CastAll(vs: seq<Value>): (r: Result<seq<Value>>)
    ensures r.Ok? <==> forall i :: 0 <= i < |vs| ==> CastInt(vs[i]).Ok?
    ensures r.Ok? ==> |r.value| == |vs| && forall i :: 0 <= i < |vs| ==> CastInt(vs[i]) == Ok(r.value[i])
  {
    if |vs| == 0 then Ok([])
    else
      match CastInt(vs[0])
      case Err(e) => Err(e)
      case Ok(v) =>
        match CastAll(vs[1..])
        case Err(e) => Err(e)
        case Ok(rest) => Ok([v] + rest)
  }
}
