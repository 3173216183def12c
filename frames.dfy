/** The values the scraper moves around: cells of a shot table, rows (one dict per shot, as
    the provider returns it), the errors Python would raise, and the table itself. */
module Frames {
  import opened Text

  /** An exact decimal number `mantissa * 10^exponent`; stands in for a Python float. */
  datatype Decimal = Decimal(mantissa: int, exponent: int)

  function RealValue(d: Decimal): real {
    if d.exponent >= 0 then (d.mantissa * Pow10(d.exponent)) as real
    else d.mantissa as real / Pow10(-d.exponent) as real
  }

  /** Multiplication by an integer, as pandas does for `column * 120`. */
  function ScaleDecimal(d: Decimal, k: int): (r: Decimal)
    ensures RealValue(r) == k as real * RealValue(d)
  {
    assert d.exponent >= 0 ==>
      d.mantissa * k * Pow10(d.exponent) == k * (d.mantissa * Pow10(d.exponent));
    Decimal(d.mantissa * k, d.exponent)
  }

  /** One cell of a table: the provider's strings, a float, NaN (pandas' marker for a missing
      cell), or a signed infinity. */
  datatype Value = Str(text: string) | Num(d: Decimal) | NaN | Inf(negative: bool)

  /** One record, field name to value. A field the row lacks reads as NaN, which is what
      pandas puts in the cells that the union of columns leaves empty. */
  type Row = map<string, Value>

  /** The exceptions the scraper lets escape. */
  datatype Error =
    | KeyError(key: string)               // a dict or a DataFrame lacks the key or column
    | DatetimeNotString                   // `strptime` given something other than a str
    | BadDatetime(text: string)           // `strptime` rejects the text
    | FetchFailed(id: Value)              // the provider has no shot data for this match
    | NoObjectsToConcatenate              // `pd.concat([])`
    | NotAFloat(text: string)             // `astype(float)` meets a non-numeric string

  datatype Option<T> = None | Some(value: T)

  datatype Result<T> = Ok(value: T) | Err(error: Error)

  datatype Outcome = Pass | Fail(error: Error)

  function Cell(row: Row, col: string): Value {
    if col in row then row[col] else NaN
  }

  /** A DataFrame has a column once any of its records carried that field. */
  predicate HasColumn(rows: seq<Row>, col: string) {
    exists i | 0 <= i < |rows| :: col in rows[i]
  }

  /** `df[col] = values`: row `i` gets `values[i]` in column `col`, every other field kept. */
  function WithColumn(rows: seq<Row>, col: string, values: seq<Value>): (r: seq<Row>)
    requires |values| == |rows|
    ensures |r| == |rows|
    ensures forall i | 0 <= i < |r| :: r[i].Keys == rows[i].Keys + {col} && r[i][col] == values[i]
    ensures forall i, k | 0 <= i < |r| && k in rows[i] && k != col :: r[i][k] == rows[i][k]
  {
    seq(|rows|, i requires 0 <= i < |rows| => rows[i][col := values[i]])
  }

  /** The cells of one column, row by row. */
  function ColumnOf(rows: seq<Row>, col: string): (vs: seq<Value>)
    ensures |vs| == |rows|
    ensures forall i | 0 <= i < |rows| :: vs[i] == Cell(rows[i], col)
  {
    seq(|rows|, i requires 0 <= i < |rows| => Cell(rows[i], col))
  }

  /** Setting a column twice keeps only the second assignment. */
  lemma WithColumnTwice(rows: seq<Row>, col: string, a: seq<Value>, b: seq<Value>)
    requires |a| == |rows| && |b| == |rows|
    ensures WithColumn(WithColumn(rows, col, a), col, b) == WithColumn(rows, col, b)
  {
    var once := WithColumn(WithColumn(rows, col, a), col, b);
    forall i | 0 <= i < |rows|
      ensures once[i] == WithColumn(rows, col, b)[i]
    {
      assert once[i] == rows[i][col := a[i]][col := b[i]];
    }
  }

  /** Setting one column leaves every other column as it was, and whether it exists. */
  lemma WithColumnOther(rows: seq<Row>, col: string, vs: seq<Value>, other: string)
    requires |vs| == |rows| && other != col
    ensures ColumnOf(WithColumn(rows, col, vs), other) == ColumnOf(rows, other)
    ensures HasColumn(WithColumn(rows, col, vs), other) <==> HasColumn(rows, other)
  {
    var r := WithColumn(rows, col, vs);
    assert forall i | 0 <= i < |rows| :: Cell(r[i], other) == Cell(rows[i], other);
    if HasColumn(r, other) {
      var i :| 0 <= i < |r| && other in r[i];
      assert other in rows[i];
    }
  }

  /** Reading back a column just set gives the values set. */
  lemma WithColumnSame(rows: seq<Row>, col: string, vs: seq<Value>)
    requires |vs| == |rows|
    ensures ColumnOf(WithColumn(rows, col, vs), col) == vs
  {
  }

  /** After an assignment the column exists, unless the frame has no rows at all. */
  lemma WithColumnHas(rows: seq<Row>, col: string, vs: seq<Value>)
    requires |vs| == |rows|
    ensures HasColumn(WithColumn(rows, col, vs), col) <==> rows != []
  {
    if rows != [] {
      assert col in WithColumn(rows, col, vs)[0];
    }
  }

  /** A DataFrame: its rows in order. Column operations reassign `rows`. */
  class ShotFrame {
    var rows: seq<Row>

    /** `pd.DataFrame(records)` */
    constructor (records: seq<Row>)
      ensures rows == records
    {
      rows := records;
    }

    /** `df[col]`, the column as a Series; cells the row lacks read as NaN. A column no
        record carries raises `KeyError`, which callers rule out with `HasColumn`. */
    function Column(col: string): (vs: seq<Value>)
      reads this
      requires HasColumn(rows, col)
      ensures |vs| == |rows|
      ensures forall i | 0 <= i < |vs| :: vs[i] == Cell(rows[i], col)
    {
      ColumnOf(rows, col)
    }

    /** `df[col] = series` */
    method Assign(col: string, values: seq<Value>)
      requires |values| == |rows|
      modifies this
      ensures rows == WithColumn(old(rows), col, values)
    {
      rows := WithColumn(rows, col, values);
    }

    /** `df[col] = scalar`: the same value in every row. */
    method Broadcast(col: string, v: Value)
      modifies this
      ensures |rows| == |old(rows)|
      ensures forall i | 0 <= i < |rows| :: rows[i] == old(rows)[i][col := v]
    {
      rows := WithColumn(rows, col, seq(|rows|, _ => v));
    }
  }

  /** How many rows a list of row lists holds altogether. */
  function TotalRows(batches: seq<seq<Row>>): nat {
    if batches == [] then 0 else |batches[0]| + TotalRows(batches[1..])
  }

  /** `pd.concat(frames, ignore_index=True)` on the frames' rows: one list after another,
      renumbered from zero. */
  function Flatten(batches: seq<seq<Row>>): (r: seq<Row>)
    ensures |r| == TotalRows(batches)
  {
    if batches == [] then [] else batches[0] + Flatten(batches[1..])
  }

  /** Row `j` of list `m` sits after all rows of the lists before it. */
  lemma {:induction false} FlattenIndex(batches: seq<seq<Row>>, m: nat, j: nat)
    requires m < |batches| && j < |batches[m]|
    ensures TotalRows(batches[..m]) + j < |Flatten(batches)|
    ensures Flatten(batches)[TotalRows(batches[..m]) + j] == batches[m][j]
    decreases m
  {
    if m > 0 {
      FlattenIndex(batches[1..], m - 1, j);
      assert batches[1..][..m - 1] == batches[..m][1..];
    }
  }

  /** Every row of the result comes from some place in some list; `FlattenPlaceUnique`
      says that place is the only one. */
  lemma {:induction false} FlattenOrigin(batches: seq<seq<Row>>, i: nat)
    requires i < |Flatten(batches)|
    ensures exists m, j | 0 <= m < |batches| && 0 <= j < |batches[m]| ::
      i == TotalRows(batches[..m]) + j && Flatten(batches)[i] == batches[m][j]
    decreases |batches|
  {
    if i < |batches[0]| {
      assert batches[..0] == [];
      assert i == TotalRows(batches[..0]) + i && Flatten(batches)[i] == batches[0][i];
    } else {
      FlattenOrigin(batches[1..], i - |batches[0]|);
      var m, j :| 0 <= m < |batches[1..]| && 0 <= j < |batches[1..][m]|
        && i - |batches[0]| == TotalRows(batches[1..][..m]) + j
        && Flatten(batches[1..])[i - |batches[0]|] == batches[1..][m][j];
      assert batches[1..][..m] == batches[..m + 1][1..];
      assert i == TotalRows(batches[..m + 1]) + j && Flatten(batches)[i] == batches[m + 1][j];
    }
  }

  /** No two places in the lists land on the same row of the result. */
  lemma FlattenPlaceUnique(batches: seq<seq<Row>>, m: nat, j: nat, m': nat, j': nat)
    requires m < |batches| && j < |batches[m]|
    requires m' < |batches| && j' < |batches[m']|
    requires TotalRows(batches[..m]) + j == TotalRows(batches[..m']) + j'
    ensures m == m' && j == j'
  {
    if m < m' {
      PrefixTotalGrows(batches, m, m');
    } else if m' < m {
      PrefixTotalGrows(batches, m', m);
    }
  }

  /** The rows before list `m'` include all of list `m` when `m` comes earlier. */
  lemma PrefixTotalGrows(batches: seq<seq<Row>>, m: nat, m': nat)
    requires m < m' <= |batches|
    ensures TotalRows(batches[..m]) + |batches[m]| <= TotalRows(batches[..m'])
  {
    var rest := [batches[m]] + batches[m + 1..m'];
    assert batches[..m'] == batches[..m] + rest;
    TotalRowsAppend(batches[..m], rest);
    assert rest[1..] == batches[m + 1..m'];
  }

  /** Counting the rows of two lists of lists one after the other. */
  lemma {:induction false} TotalRowsAppend(a: seq<seq<Row>>, b: seq<seq<Row>>)
    ensures TotalRows(a + b) == TotalRows(a) + TotalRows(b)
    decreases |a|
  {
    if a != [] {
      assert (a + b)[1..] == a[1..] + b;
      TotalRowsAppend(a[1..], b);
    } else {
      assert a + b == b;
    }
  }

  lemma FlattenPair(a: seq<Row>, b: seq<Row>)
    ensures Flatten([a, b]) == a + b
  {
    assert [a, b][1..] == [b];
    assert [b][1..] == [];
    assert b + [] == b;
  }

  /** The rows of each frame in a list, read at the moment of the call. */
  function RowsOf(frames: seq<ShotFrame>): (bs: seq<seq<Row>>)
    reads frames
    ensures |bs| == |frames|
    ensures forall i | 0 <= i < |frames| :: bs[i] == frames[i].rows
  {
    seq(|frames|, i requires 0 <= i < |frames| reads frames => frames[i].rows)
  }

  /** `pd.concat(frames, ignore_index=True)`: a new frame holding the rows of every frame
      in order; an empty list raises `ValueError("No objects to concatenate")`. */
  method Concat(frames: seq<ShotFrame>) returns (r: Result<ShotFrame>)
    ensures r.Err? <==> frames == []
    ensures r.Err? ==> r.error == NoObjectsToConcatenate
    ensures r.Ok? ==> fresh(r.value) && r.value.rows == Flatten(RowsOf(frames))
  {
    if frames == [] {
      return Err(NoObjectsToConcatenate);
    }
    var df := new ShotFrame(Flatten(RowsOf(frames)));
    return Ok(df);
  }
}
