/** `clean_shot_data`: the X, Y and xG columns turned from the provider's strings into
    numbers, apostrophes ignored, then X and Y rescaled from the unit square to a
    120 by 80 pitch. The frame is changed in place, also when the call raises half-way. */
module Cleaning {
  import opened Frames
  import opened Text
  import opened FloatText

  /** The columns the loop visits, in its order. */
  const COLUMNS: seq<string> := ["X", "Y", "xG"]

  /** `astype(str).str.replace("'", "")` on one cell. */
  function StripCell(v: Value): (r: Value)
    ensures r.Str? && '\'' !in r.text
  {
    Str(StripQuotes(AsText(v)))
  }

  /** `astype(float)` on one cell: `float(str(v))`. */
  function Coerce(v: Value): (r: Result<Value>)
    ensures r.Ok? ==> !r.value.Str?
  {
    ToFloat(AsText(v))
  }

  /** The number a raw cell ends up as after both steps of the loop body. */
  function Parsed(v: Value): Result<Value> {
    Coerce(StripCell(v))
  }

  /** `series * k` on one cell of a float column: a number is multiplied, NaN and the
      infinities (k is positive) are left as they are. */
  function ScaleCell(v: Value, k: int): (r: Value)
    requires k > 0
    ensures r.Num? <==> v.Num?
    ensures v.Num? ==> RealValue(r.d) == k as real * RealValue(v.d)
    ensures !v.Num? ==> r == v
  {
    match v
    case Num(d) => Num(ScaleDecimal(d, k))
    case _ => v
  }

  function StripColumn(vs: seq<Value>): (r: seq<Value>)
    ensures |r| == |vs|
    ensures forall i | 0 <= i < |vs| :: r[i] == StripCell(vs[i])
  {
    seq(|vs|, i requires 0 <= i < |vs| => StripCell(vs[i]))
  }

  function ScaleColumn(vs: seq<Value>, k: int): (r: seq<Value>)
    requires k > 0
    ensures |r| == |vs|
    ensures forall i | 0 <= i < |vs| :: r[i] == ScaleCell(vs[i], k)
  {
    seq(|vs|, i requires 0 <= i < |vs| => ScaleCell(vs[i], k))
  }

  /** `astype(float)` on every cell of a column, each on its own. */
  function CoerceEach(vs: seq<Value>): (rs: seq<Result<Value>>)
    ensures |rs| == |vs|
    ensures forall i | 0 <= i < |vs| :: rs[i] == Coerce(vs[i])
  {
    seq(|vs|, i requires 0 <= i < |vs| => Coerce(vs[i]))
  }

  /** All the converted cells, or the first exception from the top. */
  function Gather(rs: seq<Result<Value>>): (r: Result<seq<Value>>)
    ensures r.Ok? ==> |r.value| == |rs|
  {
    if rs == [] then Ok([])
    else
      match rs[0]
      case Err(e) => Err(e)
      case Ok(x) =>
        match Gather(rs[1..])
        case Err(e) => Err(e)
        case Ok(xs) => Ok([x] + xs)
  }

  /** `series.astype(float)`: every cell converted, or the first cell that is not a
      number raises. */
  function CoerceColumn(vs: seq<Value>): (r: Result<seq<Value>>)
    ensures r.Ok? ==> |r.value| == |vs|
    ensures r.Ok? <==> forall i | 0 <= i < |vs| :: Coerce(vs[i]).Ok?
    ensures r.Ok? ==> forall i | 0 <= i < |vs| :: Coerce(vs[i]) == Ok(r.value[i])
  {
    GatherOk(CoerceEach(vs));
    Gather(CoerceEach(vs))
  }

  /** How a call ends and the rows the frame holds afterwards. */
  datatype Cleaned = Cleaned(outcome: Outcome, rows: seq<Row>)

  /** One pass of the loop body for column `col`. */
  function CleanColumn(rows: seq<Row>, col: string): (r: Cleaned)
    ensures |r.rows| == |rows|
  {
    if !HasColumn(rows, col) then Cleaned(Fail(KeyError(col)), rows)
    else
      var stripped := WithColumn(rows, col, StripColumn(ColumnOf(rows, col)));
      match CoerceColumn(ColumnOf(stripped, col))
      case Err(e) => Cleaned(Fail(e), stripped)
      case Ok(vs) => Cleaned(Pass, WithColumn(stripped, col, vs))
  }

  /** The loop over `cols`, stopping at the first exception. */
  function CleanColumns(rows: seq<Row>, cols: seq<string>): (r: Cleaned)
    ensures |r.rows| == |rows|
    decreases |cols|
  {
    if cols == [] then Cleaned(Pass, rows)
    else
      var c := CleanColumn(rows, cols[0]);
      if c.outcome.Fail? then c else CleanColumns(c.rows, cols[1..])
  }

  /** The two rescaling assignments after the loop: X times 120, then Y times 80, each
      row keeping every other field. */
  function Rescale(rows: seq<Row>): (r: seq<Row>)
    ensures |r| == |rows|
    ensures forall i | 0 <= i < |rows| ::
      r[i] == rows[i]["X" := ScaleCell(Cell(rows[i], "X"), 120)]["Y" := ScaleCell(Cell(rows[i], "Y"), 80)]
  {
    var scaledX := WithColumn(rows, "X", ScaleColumn(ColumnOf(rows, "X"), 120));
    assert forall i | 0 <= i < |rows| :: Cell(scaledX[i], "Y") == Cell(rows[i], "Y");
    WithColumn(scaledX, "Y", ScaleColumn(ColumnOf(scaledX, "Y"), 80))
  }

  /** What `clean_shot_data` leaves in the frame, and whether it returns or raises. */
  function CleanShots(rows: seq<Row>): (r: Cleaned)
    ensures |r.rows| == |rows|
  {
    var c := CleanColumns(rows, COLUMNS);
    if c.outcome.Fail? then c else Cleaned(Pass, Rescale(c.rows))
  }

  /** `clean_shot_data(df_shot_data)`: changes `df` in place; `Pass` stands for returning
      the frame, `Fail` for the exception raised. */
  method CleanShotData(df: ShotFrame) returns (o: Outcome)
    modifies df
    ensures Cleaned(o, df.rows) == CleanShots(old(df.rows))
  {
    ghost var start := df.rows;
    var cols := COLUMNS;
    assert cols[0..] == cols;
    for n := 0 to |cols|
      invariant CleanColumns(start, cols) == CleanColumns(df.rows, cols[n..])
      invariant n > 0 ==> df.rows != [] && forall i | 0 <= i < |df.rows| :: "X" in df.rows[i]
      invariant n > 1 ==> forall i | 0 <= i < |df.rows| :: "Y" in df.rows[i]
    {
      var col := cols[n];
      assert cols[n..][0] == col && cols[n..][1..] == cols[n + 1..];
      o := CleanColumnInPlace(df, col);
      if o.Fail? {
        return;
      }
    }
    assert "X" in df.rows[0] && "Y" in df.rows[0];
    df.Assign("X", ScaleColumn(df.Column("X"), 120));
    df.Assign("Y", ScaleColumn(df.Column("Y"), 80));
    return Pass;
  }

  /** The loop body for column `col`: strip the apostrophes, then convert to float. A
      missing column raises before anything changes; a failed conversion leaves the
      stripped strings behind. */
  method CleanColumnInPlace(df: ShotFrame, col: string) returns (o: Outcome)
    modifies df
    ensures Cleaned(o, df.rows) == CleanColumn(old(df.rows), col)
    ensures o.Pass? ==> df.rows != [] && forall i | 0 <= i < |df.rows| :: col in df.rows[i]
    ensures forall i | 0 <= i < |df.rows| :: old(df.rows)[i].Keys <= df.rows[i].Keys
  {
    if !HasColumn(df.rows, col) {
      return Fail(KeyError(col));
    }
    var stripped := StripColumn(df.Column(col));
    assert df.Column(col) == ColumnOf(df.rows, col);
    WithColumnHas(df.rows, col, stripped);
    df.Assign(col, stripped);
    var parsed := CoerceColumn(df.Column(col));
    assert df.Column(col) == ColumnOf(df.rows, col);
    if parsed.Err? {
      return Fail(parsed.error);
    }
    df.Assign(col, parsed.value);
    return Pass;
  }

  // ---------------------------------------------------------------------------------
  // One column.

  /** The conversions all succeed exactly when each one does; the values are theirs,
      in order. */
  lemma {:induction false} GatherOk(rs: seq<Result<Value>>)
    ensures Gather(rs).Ok? <==> forall i | 0 <= i < |rs| :: rs[i].Ok?
    ensures Gather(rs).Ok? ==> forall i | 0 <= i < |rs| :: rs[i] == Ok(Gather(rs).value[i])
  {
    if rs != [] {
      GatherOk(rs[1..]);
      assert forall i | 1 <= i < |rs| :: rs[1..][i - 1] == rs[i];
    }
  }

  /** The exception is the first one from the top. */
  lemma {:induction false} GatherFirstError(rs: seq<Result<Value>>, k: nat)
    requires k < |rs| && rs[k].Err?
    requires forall i | 0 <= i < k :: rs[i].Ok?
    ensures Gather(rs) == Err(rs[k].error)
    decreases k
  {
    if k > 0 {
      assert rs[1..][k - 1] == rs[k];
      assert forall i | 0 <= i < k - 1 :: rs[1..][i] == rs[i + 1];
      GatherFirstError(rs[1..], k - 1);
      assert rs[0].Ok?;
    }
  }

  /** What `astype(float)` produces holds no strings. */
  lemma CoerceColumnNumbers(vs: seq<Value>)
    ensures CoerceColumn(vs).Ok? ==> forall i | 0 <= i < |vs| :: !CoerceColumn(vs).value[i].Str?
  {
    GatherOk(CoerceEach(vs));
  }

  /** The exception names the first cell, from the top, that is not a number. */
  lemma CoerceColumnFirstError(vs: seq<Value>, k: nat)
    requires k < |vs| && Coerce(vs[k]).Err?
    requires forall i | 0 <= i < k :: Coerce(vs[i]).Ok?
    ensures CoerceColumn(vs) == Err(NotAFloat(AsText(vs[k])))
  {
    GatherFirstError(CoerceEach(vs), k);
  }

  /** The loop body for `col` gets past `astype(float)`. */
  predicate ColumnParses(rows: seq<Row>, col: string) {
    HasColumn(rows, col) && CoerceColumn(StripColumn(ColumnOf(rows, col))).Ok?
  }

  /** The numbers the loop body puts in column `col`. */
  function ParsedColumn(rows: seq<Row>, col: string): (vs: seq<Value>)
    requires ColumnParses(rows, col)
    ensures |vs| == |rows|
    ensures forall i | 0 <= i < |vs| :: !vs[i].Str?
  {
    CoerceColumnNumbers(StripColumn(ColumnOf(rows, col)));
    CoerceColumn(StripColumn(ColumnOf(rows, col))).value
  }

  /** The column exists and each of its cells, apostrophes removed, is a number. */
  predicate EveryCellParses(rows: seq<Row>, col: string) {
    HasColumn(rows, col) && forall i | 0 <= i < |rows| :: Parsed(Cell(rows[i], col)).Ok?
  }

  /** The loop body gets through a column exactly when each cell parses on its own, and
      puts each cell's own number in its place. */
  lemma ColumnParsesIff(rows: seq<Row>, col: string)
    ensures ColumnParses(rows, col) <==> EveryCellParses(rows, col)
    ensures ColumnParses(rows, col) ==>
      forall i | 0 <= i < |rows| :: Ok(ParsedColumn(rows, col)[i]) == Parsed(Cell(rows[i], col))
  {
  }

  /** The loop body for one column returns exactly when the column exists and all its
      cells parse; it then sets the column to the parsed numbers. Either way the rows keep
      their number and every other column. */
  lemma CleanColumnSpec(rows: seq<Row>, col: string)
    ensures CleanColumn(rows, col).outcome.Pass? <==> ColumnParses(rows, col)
    ensures ColumnParses(rows, col) ==>
      CleanColumn(rows, col).rows == WithColumn(rows, col, ParsedColumn(rows, col))
    ensures |CleanColumn(rows, col).rows| == |rows|
    ensures forall other | other != col :: ColumnOf(CleanColumn(rows, col).rows, other) == ColumnOf(rows, other)
  {
    if HasColumn(rows, col) {
      var strippedValues := StripColumn(ColumnOf(rows, col));
      var stripped := WithColumn(rows, col, strippedValues);
      WithColumnSame(rows, col, strippedValues);
      forall other | other != col
        ensures ColumnOf(stripped, other) == ColumnOf(rows, other)
      {
        WithColumnOther(rows, col, strippedValues, other);
      }
      if CoerceColumn(strippedValues).Ok? {
        var vs := CoerceColumn(strippedValues).value;
        WithColumnTwice(rows, col, strippedValues, vs);
        forall other | other != col
          ensures ColumnOf(WithColumn(rows, col, vs), other) == ColumnOf(rows, other)
        {
          WithColumnOther(rows, col, vs, other);
        }
      }
    }
  }

  /** Whether the columns another column's assignment leaves alone parse does not
      change, nor what they parse to. */
  lemma ParsedColumnOther(rows: seq<Row>, col: string, vs: seq<Value>, other: string)
    requires |vs| == |rows| && other != col
    ensures ColumnParses(WithColumn(rows, col, vs), other) <==> ColumnParses(rows, other)
    ensures ColumnParses(rows, other) ==>
      ParsedColumn(WithColumn(rows, col, vs), other) == ParsedColumn(rows, other)
  {
    WithColumnOther(rows, col, vs, other);
  }

  // ---------------------------------------------------------------------------------
  // The whole call.

  predicate AllColumnsParse(rows: seq<Row>) {
    ColumnParses(rows, "X") && ColumnParses(rows, "Y") && ColumnParses(rows, "xG")
  }

  /** The three columns set to the given values, in the loop's order. */
  function SetColumns(rows: seq<Row>, xs: seq<Value>, ys: seq<Value>, gs: seq<Value>): seq<Row>
    requires |xs| == |rows| && |ys| == |rows| && |gs| == |rows|
  {
    WithColumn(WithColumn(WithColumn(rows, "X", xs), "Y", ys), "xG", gs)
  }

  /** The rows after the loop, when it runs to the end: the three columns set to the
      parsed numbers. */
  function ParsedRows(rows: seq<Row>): seq<Row>
    requires AllColumnsParse(rows)
  {
    SetColumns(rows, ParsedColumn(rows, "X"), ParsedColumn(rows, "Y"), ParsedColumn(rows, "xG"))
  }

  /** The loop runs to the end exactly when the three columns exist and parse, and then
      leaves `ParsedRows`. */
  lemma LoopSpec(rows: seq<Row>)
    ensures CleanColumns(rows, COLUMNS).outcome.Pass? <==> AllColumnsParse(rows)
    ensures AllColumnsParse(rows) ==> CleanColumns(rows, COLUMNS).rows == ParsedRows(rows)
  {
    assert COLUMNS[0] == "X" && COLUMNS[1..] == ["Y", "xG"];
    assert COLUMNS[1..][0] == "Y" && COLUMNS[1..][1..] == ["xG"];
    assert COLUMNS[1..][1..][0] == "xG" && COLUMNS[1..][1..][1..] == [];
    CleanColumnSpec(rows, "X");
    if ColumnParses(rows, "X") {
      var px := ParsedColumn(rows, "X");
      var withX := WithColumn(rows, "X", px);
      ParsedColumnOther(rows, "X", px, "Y");
      ParsedColumnOther(rows, "X", px, "xG");
      CleanColumnSpec(withX, "Y");
      if ColumnParses(rows, "Y") {
        var py := ParsedColumn(rows, "Y");
        var withY := WithColumn(withX, "Y", py);
        ParsedColumnOther(withX, "Y", py, "xG");
        CleanColumnSpec(withY, "xG");
      }
    }
  }

  /** `clean_shot_data` returns exactly when X, Y and xG all exist and every one of their
      cells is a number once its apostrophes are removed. */
  lemma CleanOkIff(rows: seq<Row>)
    ensures CleanShots(rows).outcome.Pass?
      <==> EveryCellParses(rows, "X") && EveryCellParses(rows, "Y") && EveryCellParses(rows, "xG")
  {
    LoopSpec(rows);
    ColumnParsesIff(rows, "X");
    ColumnParsesIff(rows, "Y");
    ColumnParsesIff(rows, "xG");
  }

  /** When it returns, each row is the row it was with X set to the parsed number times
      120, Y to the parsed number times 80 and xG to the parsed number; every other field
      is as it was, and no row is added or lost. */
  lemma CleanRows(rows: seq<Row>, i: nat)
    requires EveryCellParses(rows, "X") && EveryCellParses(rows, "Y") && EveryCellParses(rows, "xG")
    requires i < |rows|
    ensures CleanShots(rows).outcome.Pass?
    ensures |CleanShots(rows).rows| == |rows|
    ensures CleanShots(rows).rows[i] == rows[i]
      ["X" := ScaleCell(Parsed(Cell(rows[i], "X")).value, 120)]
      ["Y" := ScaleCell(Parsed(Cell(rows[i], "Y")).value, 80)]
      ["xG" := Parsed(Cell(rows[i], "xG")).value]
  {
    ColumnParsesIff(rows, "X");
    ColumnParsesIff(rows, "Y");
    ColumnParsesIff(rows, "xG");
    CleanRow(rows, i);
  }

  /** `CleanRows` in terms of the parsed columns. */
  lemma CleanRow(rows: seq<Row>, i: nat)
    requires AllColumnsParse(rows) && i < |rows|
    ensures CleanShots(rows).outcome.Pass?
    ensures |CleanShots(rows).rows| == |rows|
    ensures CleanShots(rows).rows[i] == rows[i]
      ["X" := ScaleCell(ParsedColumn(rows, "X")[i], 120)]
      ["Y" := ScaleCell(ParsedColumn(rows, "Y")[i], 80)]
      ["xG" := ParsedColumn(rows, "xG")[i]]
  {
    LoopSpec(rows);
    SetAndRescale(rows, ParsedColumn(rows, "X"), ParsedColumn(rows, "Y"), ParsedColumn(rows, "xG"), i);
  }

  /** Setting the three columns and then rescaling, seen from row `i`. */
  lemma SetAndRescale(rows: seq<Row>, xs: seq<Value>, ys: seq<Value>, gs: seq<Value>, i: nat)
    requires |xs| == |rows| && |ys| == |rows| && |gs| == |rows| && i < |rows|
    ensures |Rescale(SetColumns(rows, xs, ys, gs))| == |rows|
    ensures Rescale(SetColumns(rows, xs, ys, gs))[i]
      == rows[i]["X" := ScaleCell(xs[i], 120)]["Y" := ScaleCell(ys[i], 80)]["xG" := gs[i]]
  {
    var updated := SetColumns(rows, xs, ys, gs);
    assert updated[i] == rows[i]["X" := xs[i]]["Y" := ys[i]]["xG" := gs[i]];
    ResetTwo(rows[i], xs[i], ys[i], gs[i], ScaleCell(xs[i], 120), ScaleCell(ys[i], 80));
  }

  /** Setting X and Y again after X, Y and xG is setting them once to the new values. */
  lemma ResetTwo(m: Row, x: Value, y: Value, g: Value, x': Value, y': Value)
    ensures m["X" := x]["Y" := y]["xG" := g]["X" := x']["Y" := y'] == m["X" := x']["Y" := y']["xG" := g]
  {
  }

  /** A raised exception still leaves every column other than X, Y and xG as it was. */
  lemma CleanFailureKeepsRest(rows: seq<Row>)
    ensures CleanShots(rows).outcome.Fail? ==>
      forall other | other !in COLUMNS :: ColumnOf(CleanShots(rows).rows, other) == ColumnOf(rows, other)
  {
    CleanColumnSpec(rows, "X");
    var r1 := CleanColumn(rows, "X").rows;
    CleanColumnSpec(r1, "Y");
    var r2 := CleanColumn(r1, "Y").rows;
    CleanColumnSpec(r2, "xG");
    assert COLUMNS[0] == "X" && COLUMNS[1..] == ["Y", "xG"];
    assert COLUMNS[1..][0] == "Y" && COLUMNS[1..][1..] == ["xG"];
    assert COLUMNS[1..][1..][0] == "xG" && COLUMNS[1..][1..][1..] == [];
  }

  /** A frame without an X column raises `KeyError('X')` before anything changes. */
  lemma CleanMissingX(rows: seq<Row>)
    requires !HasColumn(rows, "X")
    ensures CleanShots(rows) == Cleaned(Fail(KeyError("X")), rows)
  {
    assert COLUMNS[0] == "X";
  }

  // ---------------------------------------------------------------------------------
  // Single cells.

  /** An apostrophe anywhere in a cell does not change the number it becomes. */
  lemma ParsedQuoteInsensitive(a: string, b: string)
    ensures Parsed(Str(a + "'" + b)) == Parsed(Str(a + b))
  {
    QuoteInsensitive(a, b);
  }

  /** A quote-wrapped decimal such as `'0.885'` becomes that decimal. */
  lemma ParsedQuotedDecimal(whole: string, fraction: string)
    requires AllDigits(whole) && AllDigits(fraction) && |whole| + |fraction| > 0
    ensures Parsed(Str("'" + whole + "." + fraction + "'"))
      == Ok(Num(Decimal(DigitsValue(whole + fraction), -|fraction|)))
  {
    QuotedLiteral(whole, fraction);
  }

  /** A cell that already holds a number, NaN or an infinity becomes itself again. */
  lemma ParsedNumber(v: Value)
    requires !v.Str?
    ensures Parsed(v) == Ok(v)
  {
    AsTextRoundTrip(v);
  }

  /** The call is not idempotent: cleaning a cleaned frame succeeds and scales X and Y
      a second time, leaving xG and everything else as they are. */
  lemma CleanTwice(rows: seq<Row>, i: nat)
    requires CleanShots(rows).outcome.Pass? && i < |rows|
    ensures |CleanShots(rows).rows| == |rows|
    ensures CleanShots(CleanShots(rows).rows).outcome.Pass?
    ensures CleanShots(CleanShots(rows).rows).rows[i]
      == CleanShots(rows).rows[i]
         ["X" := ScaleCell(Cell(CleanShots(rows).rows[i], "X"), 120)]
         ["Y" := ScaleCell(Cell(CleanShots(rows).rows[i], "Y"), 80)]
  {
    LoopSpec(rows);
    CleanedNumbers(rows);
    var once := CleanShots(rows).rows;
    ReparseCleaned(once, "X");
    ReparseCleaned(once, "Y");
    ReparseCleaned(once, "xG");
    CleanRow(once, i);
    KeepXG(once[i], ScaleCell(Cell(once[i], "X"), 120), ScaleCell(Cell(once[i], "Y"), 80));
  }

  /** X, Y and xG hold numbers (or NaN or an infinity), not strings. */
  predicate NumericRow(r: Row) {
    && "X" in r && !r["X"].Str?
    && "Y" in r && !r["Y"].Str?
    && "xG" in r && !r["xG"].Str?
  }

  /** After a successful call every row holds numbers in the three columns. */
  lemma CleanedNumbers(rows: seq<Row>)
    requires AllColumnsParse(rows)
    ensures CleanShots(rows).outcome.Pass?
    ensures |CleanShots(rows).rows| == |rows|
    ensures forall j | 0 <= j < |rows| :: NumericRow(CleanShots(rows).rows[j])
  {
    LoopSpec(rows);
    NumbersSetAndRescaled(rows, ParsedColumn(rows, "X"), ParsedColumn(rows, "Y"), ParsedColumn(rows, "xG"));
  }

  lemma NumbersSetAndRescaled(rows: seq<Row>, xs: seq<Value>, ys: seq<Value>, gs: seq<Value>)
    requires |xs| == |rows| && |ys| == |rows| && |gs| == |rows|
    requires forall j | 0 <= j < |rows| :: !xs[j].Str? && !ys[j].Str? && !gs[j].Str?
    ensures |Rescale(SetColumns(rows, xs, ys, gs))| == |rows|
    ensures forall j | 0 <= j < |rows| :: NumericRow(Rescale(SetColumns(rows, xs, ys, gs))[j])
  {
    forall j | 0 <= j < |rows|
      ensures NumericRow(Rescale(SetColumns(rows, xs, ys, gs))[j])
    {
      SetAndRescale(rows, xs, ys, gs, j);
    }
  }

  /** A column of numbers parses back to itself. */
  lemma ReparseCleaned(once: seq<Row>, col: string)
    requires col == "X" || col == "Y" || col == "xG"
    requires |once| > 0 && forall j | 0 <= j < |once| :: NumericRow(once[j])
    ensures ColumnParses(once, col)
    ensures ParsedColumn(once, col) == ColumnOf(once, col)
  {
    assert col in once[0];
    var cells := ColumnOf(once, col);
    var vs := StripColumn(cells);
    forall j | 0 <= j < |vs| ensures Coerce(vs[j]) == Ok(cells[j]) {
      assert !cells[j].Str? by {
        assert NumericRow(once[j]);
      }
      ParsedNumber(cells[j]);
    }
    assert CoerceColumn(vs).value == cells;
  }

  /** Setting xG to the value it already has changes nothing. */
  lemma KeepXG(m: Row, x: Value, y: Value)
    requires "xG" in m
    ensures m["X" := x]["Y" := y]["xG" := Cell(m, "xG")] == m["X" := x]["Y" := y]
  {
  }
}
