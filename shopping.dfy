/**
  The label bookkeeping of `shopping/shopping.py`: `evaluate`, which tallies
  how many positive and negative labels a classifier got right, and the
  categorical columns that `load_data` turns into integers.

  Spreadsheet rows arrive already split into cells; the numeric columns keep
  their text, since parsing them is the runtime's business.
 */
module Shopping {
  import opened Wrappers

  // ---------------------------------------------------------------------------
  // evaluate

  /** The four counters of `evaluate`. */
  datatype Tally = Tally(totalPositives: nat, positivesIdentified: nat, totalNegatives: nat, negativesIdentified: nat)

  /** The failure of `evaluate`: a ratio whose denominator is zero. */
  datatype EvalError = DivisionByZero

  /** Python's `zip` stops at the end of the shorter list. */
  function ZipLength(labels: seq<int>, predictions: seq<int>): (n: nat)
    ensures n <= |labels| && n <= |predictions|
    ensures n == |labels| || n == |predictions|
  {
    if |labels| < |predictions| then |labels| else |predictions|
  }

  /** The counters after one more `(label, prediction)` pair: a label of 1 is a positive, anything else a negative. */
  function Step(t: Tally, actual: int, predicted: int): (r: Tally)
    ensures r.totalPositives + r.totalNegatives == t.totalPositives + t.totalNegatives + 1
    ensures r.totalPositives == t.totalPositives + 1 <==> actual == 1
    ensures r.positivesIdentified + r.negativesIdentified
         == t.positivesIdentified + t.negativesIdentified
            + (if (actual == 1 && predicted == 1) || (actual != 1 && predicted == 0) then 1 else 0)
  {
    if actual == 1 then
      t.(totalPositives := t.totalPositives + 1,
         positivesIdentified := t.positivesIdentified + (if predicted == 1 then 1 else 0))
    else
      t.(totalNegatives := t.totalNegatives + 1,
         negativesIdentified := t.negativesIdentified + (if predicted == 0 then 1 else 0))
  }

  /** The counters after the first `n` pairs of the zip. */
  function TallyOf(labels: seq<int>, predictions: seq<int>, n: nat): Tally
    requires n <= |labels| && n <= |predictions|
  {
    if n == 0 then Tally(0, 0, 0, 0)
    else Step(TallyOf(labels, predictions, n - 1), labels[n - 1], predictions[n - 1])
  }

  /** `(sensitivity, specificity)` as exact quotients, or the division by zero. */
  function Rates(labels: seq<int>, predictions: seq<int>): (r: Outcome<(real, real), EvalError>)
    ensures var t := TallyOf(labels, predictions, ZipLength(labels, predictions));
      r.Ok? ==>
        && r.value.0 * t.totalPositives as real == t.positivesIdentified as real
        && r.value.1 * t.totalNegatives as real == t.negativesIdentified as real
  {
    var t := TallyOf(labels, predictions, ZipLength(labels, predictions));
    if t.totalPositives == 0 || t.totalNegatives == 0 then Err(DivisionByZero)
    else Ok((t.positivesIdentified as real / t.totalPositives as real,
             t.negativesIdentified as real / t.totalNegatives as real))
  }

  /** `evaluate(labels, predictions)`: one pass over the zip updating four counters, then two divisions. */
  method Evaluate(labels: seq<int>, predictions: seq<int>) returns (r: Outcome<(real, real), EvalError>)
    ensures r == Rates(labels, predictions)
  {
    var totalPositives := 0;
    var positivesIdentified := 0;
    var totalNegatives := 0;
    var negativesIdentified := 0;
    var n := ZipLength(labels, predictions);
    for k := 0 to n
      invariant Tally(totalPositives, positivesIdentified, totalNegatives, negativesIdentified)
             == TallyOf(labels, predictions, k)
    {
      if labels[k] == 1 {
        totalPositives := totalPositives + 1;
        if predictions[k] == 1 {
          positivesIdentified := positivesIdentified + 1;
        }
      } else {
        totalNegatives := totalNegatives + 1;
        if predictions[k] == 0 {
          negativesIdentified := negativesIdentified + 1;
        }
      }
    }
    if totalPositives == 0 || totalNegatives == 0 {
      return Err(DivisionByZero);
    }
    var sensitivity := positivesIdentified as real / totalPositives as real;
    var specificity := negativesIdentified as real / totalNegatives as real;
    return Ok((sensitivity, specificity));
  }

  /**
    Every pair is counted exactly once, as a positive or as a negative, and
    no more labels are identified than there are.
   */
  lemma {:induction false} TallyCountsEveryPair(labels: seq<int>, predictions: seq<int>, n: nat)
    requires n <= |labels| && n <= |predictions|
    ensures TallyOf(labels, predictions, n).totalPositives + TallyOf(labels, predictions, n).totalNegatives == n
    ensures TallyOf(labels, predictions, n).positivesIdentified <= TallyOf(labels, predictions, n).totalPositives
    ensures TallyOf(labels, predictions, n).negativesIdentified <= TallyOf(labels, predictions, n).totalNegatives
  {
    if n > 0 {
      TallyCountsEveryPair(labels, predictions, n - 1);
    }
  }

  /** The positives among the first `n` pairs are the labels equal to 1 there, the negatives all the others. */
  lemma {:induction false} TallyCountsLabels(labels: seq<int>, predictions: seq<int>, n: nat)
    requires n <= |labels| && n <= |predictions|
    ensures TallyOf(labels, predictions, n).totalPositives == multiset(labels[..n])[1]
    ensures TallyOf(labels, predictions, n).totalNegatives == n - multiset(labels[..n])[1]
  {
    if n > 0 {
      TallyCountsLabels(labels, predictions, n - 1);
      assert labels[..n] == labels[..n - 1] + [labels[n - 1]];
    }
  }

  /** There is no positive among the first `n` pairs exactly when no label there is 1, and no negative exactly when all are. */
  lemma {:induction false} TallyTotalsZero(labels: seq<int>, predictions: seq<int>, n: nat)
    requires n <= |labels| && n <= |predictions|
    ensures TallyOf(labels, predictions, n).totalPositives == 0 <==> forall k | 0 <= k < n :: labels[k] != 1
    ensures TallyOf(labels, predictions, n).totalNegatives == 0 <==> forall k | 0 <= k < n :: labels[k] == 1
  {
    if n > 0 {
      TallyTotalsZero(labels, predictions, n - 1);
    }
  }

  /**
    Every positive is identified exactly when each label 1 is predicted 1,
    and every negative exactly when each other label is predicted 0.
   */
  lemma {:induction false} TallyIdentifiesAll(labels: seq<int>, predictions: seq<int>, n: nat)
    requires n <= |labels| && n <= |predictions|
    ensures TallyOf(labels, predictions, n).positivesIdentified == TallyOf(labels, predictions, n).totalPositives
        <==> forall k | 0 <= k < n && labels[k] == 1 :: predictions[k] == 1
    ensures TallyOf(labels, predictions, n).negativesIdentified == TallyOf(labels, predictions, n).totalNegatives
        <==> forall k | 0 <= k < n && labels[k] != 1 :: predictions[k] == 0
  {
    if n > 0 {
      TallyIdentifiesAll(labels, predictions, n - 1);
      TallyCountsEveryPair(labels, predictions, n - 1);
    }
  }

  lemma RatioInUnitInterval(a: nat, b: nat)
    requires a <= b && 0 < b
    ensures 0.0 <= a as real / b as real <= 1.0
  {
    assert a as real / b as real * b as real == a as real;
  }

  /**
    `evaluate` fails exactly when the zip holds no positive label or no
    negative one; otherwise both ratios lie in [0, 1], and a ratio is 1
    exactly when every label of its kind was predicted right.
   */
  lemma RatesSpec(labels: seq<int>, predictions: seq<int>)
    ensures var n := ZipLength(labels, predictions);
      Rates(labels, predictions).Err? <==>
        (forall k | 0 <= k < n :: labels[k] != 1) || (forall k | 0 <= k < n :: labels[k] == 1)
    ensures Rates(labels, predictions).Ok? ==>
      var (sensitivity, specificity) := Rates(labels, predictions).value;
      && 0.0 <= sensitivity <= 1.0
      && 0.0 <= specificity <= 1.0
    ensures Rates(labels, predictions).Ok? ==>
      var n := ZipLength(labels, predictions);
      && (Rates(labels, predictions).value.0 == 1.0 <==> forall k | 0 <= k < n && labels[k] == 1 :: predictions[k] == 1)
      && (Rates(labels, predictions).value.1 == 1.0 <==> forall k | 0 <= k < n && labels[k] != 1 :: predictions[k] == 0)
  {
    var n := ZipLength(labels, predictions);
    var t := TallyOf(labels, predictions, n);
    TallyTotalsZero(labels, predictions, n);
    TallyCountsEveryPair(labels, predictions, n);
    TallyIdentifiesAll(labels, predictions, n);
    if t.totalPositives != 0 && t.totalNegatives != 0 {
      RatioInUnitInterval(t.positivesIdentified, t.totalPositives);
      RatioInUnitInterval(t.negativesIdentified, t.totalNegatives);
      RatioIsOne(t.positivesIdentified, t.totalPositives);
      RatioIsOne(t.negativesIdentified, t.totalNegatives);
    }
  }

  lemma RatioIsOne(a: nat, b: nat)
    requires 0 < b
    ensures a as real / b as real == 1.0 <==> a == b
  {
    assert a as real / b as real * b as real == a as real;
  }

  // ---------------------------------------------------------------------------
  // The categorical columns of load_data

  /** A cell of an evidence row: still the spreadsheet's text, or an integer it was converted to. */
  datatype Value = Text(s: string) | Number(n: int)

  /** Why `load_data` stops: the file has no header row, a row lacks a column that is read, or a month is not recognised. */
  datatype LoadError = MissingHeader | MissingColumn | UnknownMonth

  /** The month abbreviations of `load_data`, in calendar order. */
  function Months(): seq<string> { ["Jan", "Feb", "Mar", "Apr", "May", "Jun", "Jul", "Aug", "Sep", "Oct", "Nov", "Dec"] }

  /** Python's `s[:3]`. */
  function Prefix3(s: string): (r: string)
    ensures |r| == if |s| < 3 then |s| else 3
    ensures r == s[..|r|]
  {
    if |s| <= 3 then s else s[..3]
  }

  /** Python's `xs.index(x)`: the first position of `x`, or `None` for the `ValueError` it raises. */
  function IndexOf(xs: seq<string>, x: string): (r: Option<nat>)
    ensures r.Some? ==> r.value < |xs| && xs[r.value] == x && forall j | 0 <= j < r.value :: xs[j] != x
  {
    if xs == [] then None
    else if xs[0] == x then Some(0)
    else match IndexOf(xs[1..], x)
      case None => None
      case Some(i) => Some(i + 1)
  }

  /** `xs.index(x)` raises exactly when `x` does not occur in `xs`. */
  lemma {:induction false} IndexOfMissing(xs: seq<string>, x: string)
    ensures IndexOf(xs, x).None? <==> x !in xs
  {
    if xs != [] && xs[0] != x {
      IndexOfMissing(xs[1..], x);
      assert x in xs <==> x in xs[1..];
    }
  }

  /** The Month column: the position of the cell's first three characters in `Months`. */
  function MonthIndex(cell: string): (r: Option<nat>)
    ensures r.Some? ==> r.value < 12 && Months()[r.value] == Prefix3(cell)
  {
    IndexOf(Months(), Prefix3(cell))
  }

  /** A month is rejected exactly when its first three characters are none of the names in `Months`. */
  lemma MonthIndexMissing(cell: string)
    ensures MonthIndex(cell).None? <==> Prefix3(cell) !in Months()
  {
    IndexOfMissing(Months(), Prefix3(cell));
  }

  lemma MonthExamples()
    ensures MonthIndex("Jan") == Some(0)
    ensures MonthIndex("June") == Some(5)
  {
    assert Prefix3("June") == "Jun";
  }

  /** The VisitorType column: 1 for a returning visitor, 0 for anything else. */
  function VisitorType(cell: string): (v: Value)
    ensures v == Number(0) || v == Number(1)
    ensures v == Number(1) <==> cell == "Returning_Visitor"
  {
    Number(if cell == "Returning_Visitor" then 1 else 0)
  }

  /** The label of a row: 1 when its last cell is `TRUE`. */
  function Label(row: seq<string>): (l: int)
    requires row != []
    ensures l == 0 || l == 1
    ensures l == 1 <==> row[|row| - 1] == "TRUE"
  {
    if row[|row| - 1] == "TRUE" then 1 else 0
  }

  /**
    One data row as the source encodes it: columns 0 to 16, the month as its
    index, the visitor type as 0/1 and the weekend column as 0, whatever it
    held, because the source tests the already converted visitor type.
    The source reads columns 0 to 10 before looking up the month and the
    remaining columns after, so a row with at most ten cells fails before an
    unknown month does.
   */
  function EncodeRow(row: seq<string>): (r: Outcome<seq<Value>, LoadError>)
    ensures r.Ok? ==> |r.value| == 17 && |row| >= 17
  {
    if |row| <= 10 then Err(MissingColumn)
    else match MonthIndex(row[10])
      case None => Err(UnknownMonth)
      case Some(month) =>
        if |row| < 17 then Err(MissingColumn)
        else
          Ok(seq(17, i requires 0 <= i < 17 =>
            if i == 10 then Number(month)
            else if i == 15 then VisitorType(row[15])
            else if i == 16 then Number(0)
            else Text(row[i])))
  }

  /**
    Which rows the source accepts: those with at least 17 cells whose month
    cell starts with one of the abbreviations.  A row with more than ten cells
    and an unknown month fails on the month; every other rejected row lacks a column.
   */
  lemma EncodeRowAccepts(row: seq<string>)
    ensures EncodeRow(row).Ok? <==> |row| >= 17 && Prefix3(row[10]) in Months()
    ensures EncodeRow(row) == Err(UnknownMonth) <==> |row| > 10 && Prefix3(row[10]) !in Months()
    ensures EncodeRow(row) == Err(MissingColumn) <==> |row| <= 10 || (|row| < 17 && Prefix3(row[10]) in Months())
  {
    if |row| > 10 {
      MonthIndexMissing(row[10]);
    }
  }

  /** An encoding of one data row, such as `EncodeRow`: a row it accepts has at least 17 cells and becomes 17 values. */
  type RowEncoder = encode: seq<string> -> Outcome<seq<Value>, LoadError>
    | forall row :: encode(row).Ok? ==> |row| >= 17 && |encode(row).value| == 17
    witness row => Err(MissingColumn)

  /** The evidence and the labels of `rows`, in order, or the error of the first row that `encode` rejects. */
  function EncodeAll(encode: RowEncoder, rows: seq<seq<string>>): (r: Outcome<(seq<seq<Value>>, seq<int>), LoadError>)
    ensures r.Ok? ==> |r.value.0| == |rows| && |r.value.1| == |rows|
    ensures r.Ok? ==> forall k | 0 <= k < |rows| :: |r.value.0[k]| == 17
  {
    if rows == [] then Ok(([], []))
    else
      match EncodeAll(encode, rows[..|rows| - 1])
      case Err(e) => Err(e)
      case Ok((evidence, labels)) =>
        match encode(rows[|rows| - 1])
        case Err(e) => Err(e)
        case Ok(cells) => Ok((evidence + [cells], labels + [Label(rows[|rows| - 1])]))
  }

  /** The row encoding of the source, as a value that `EncodeAll` takes. */
  const SourceRowEncoder: RowEncoder := EncodeRow

  /** `load_data` on the rows of the spreadsheet: skip the header, encode the rest. */
  function Load(rows: seq<seq<string>>): (r: Outcome<(seq<seq<Value>>, seq<int>), LoadError>)
    ensures rows == [] ==> r == Err(MissingHeader)
    ensures r.Ok? ==> |r.value.0| == |rows| - 1 && |r.value.1| == |rows| - 1
    ensures r.Ok? ==> forall k | 0 <= k < |rows| - 1 :: |r.value.0[k]| == 17
  {
    if rows == [] then Err(MissingHeader) else EncodeAll(SourceRowEncoder, rows[1..])
  }

  /** Once a row fails, every longer list of rows fails with the same error. */
  lemma {:induction false} EncodeAllKeepsError(encode: RowEncoder, rows: seq<seq<string>>, n: nat)
    requires n <= |rows| && EncodeAll(encode, rows[..n]).Err?
    ensures EncodeAll(encode, rows) == EncodeAll(encode, rows[..n])
    decreases |rows| - n
  {
    if n < |rows| {
      assert rows[..n + 1][..n] == rows[..n];
      EncodeAllKeepsError(encode, rows, n + 1);
    } else {
      assert rows[..n] == rows;
    }
  }

  /** Encoding one more row: the error of that row, or the encodings so far extended by its encoding and its label. */
  lemma EncodeAllStep(encode: RowEncoder, rows: seq<seq<string>>, n: nat)
    requires n < |rows| && EncodeAll(encode, rows[..n]).Ok?
    ensures encode(rows[n]).Err? ==> EncodeAll(encode, rows[..n + 1]) == Err(encode(rows[n]).error)
    ensures encode(rows[n]).Ok? ==>
      EncodeAll(encode, rows[..n + 1]) ==
        Ok((EncodeAll(encode, rows[..n]).value.0 + [encode(rows[n]).value],
            EncodeAll(encode, rows[..n]).value.1 + [Label(rows[n])]))
  {
    assert rows[..n + 1][..n] == rows[..n];
  }

  /**
    A successful encoding gives one evidence row and one label per row, in
    order, each the encoding of that row.
   */
  lemma {:induction false} EncodeAllShape(encode: RowEncoder, rows: seq<seq<string>>)
    requires EncodeAll(encode, rows).Ok?
    ensures |EncodeAll(encode, rows).value.0| == |rows| && |EncodeAll(encode, rows).value.1| == |rows|
    ensures forall k | 0 <= k < |rows| ::
      && rows[k] != []
      && encode(rows[k]) == Ok(EncodeAll(encode, rows).value.0[k])
      && EncodeAll(encode, rows).value.1[k] == Label(rows[k])
  {
    if rows != [] {
      var front := rows[..|rows| - 1];
      EncodeAllShape(encode, front);
      assert forall k | 0 <= k < |front| :: front[k] == rows[k];
    }
  }

  /** The encoding fails exactly when some row cannot be encoded. */
  lemma {:induction false} EncodeAllFails(encode: RowEncoder, rows: seq<seq<string>>)
    ensures EncodeAll(encode, rows).Err? <==> exists k :: 0 <= k < |rows| && encode(rows[k]).Err?
  {
    if rows != [] {
      var front := rows[..|rows| - 1];
      EncodeAllFails(encode, front);
      assert forall k | 0 <= k < |front| :: front[k] == rows[k];
      if EncodeAll(encode, front).Err? {
        var k :| 0 <= k < |front| && encode(front[k]).Err?;
        assert encode(rows[k]).Err?;
      }
    }
  }

  /**
    The body of the loop of `load_data` for one row: copy `row[:17]`, then
    overwrite the month, the visitor type and the weekend cell in place.
   */
  method EncodeOneRow(row: seq<string>) returns (r: Outcome<seq<Value>, LoadError>)
    ensures r == EncodeRow(row)
  {
    var cells := seq(if |row| < 17 then |row| else 17, i requires 0 <= i < |row| && i < 17 => Text(row[i]));
    if |cells| <= 10 {
      return Err(MissingColumn);
    }
    assert cells[10].s == row[10];
    var month := IndexOf(Months(), Prefix3(cells[10].s));
    if month.None? {
      return Err(UnknownMonth);
    }
    assert MonthIndex(row[10]) == month;
    cells := cells[10 := Number(month.value)];
    if |cells| < 17 {
      return Err(MissingColumn);
    }
    cells := cells[15 := Number(if cells[15] == Text("Returning_Visitor") then 1 else 0)];
    cells := cells[16 := Number(if cells[15] == Text("TRUE") then 1 else 0)];
    assert EncodeRow(row).Ok? && |EncodeRow(row).value| == |cells|;
    assert forall i | 0 <= i < 17 :: EncodeRow(row).value[i] == cells[i];
    assert EncodeRow(row).value == cells;
    return Ok(cells);
  }

  /** Two encodings that accept the same rows accept the same lists of rows and read the same labels from them. */
  lemma {:induction false} EncodeAllSameFailures(encode: RowEncoder, other: RowEncoder, rows: seq<seq<string>>)
    requires forall row :: encode(row).Ok? <==> other(row).Ok?
    ensures EncodeAll(encode, rows).Ok? <==> EncodeAll(other, rows).Ok?
    ensures EncodeAll(encode, rows).Ok? ==> EncodeAll(encode, rows).value.1 == EncodeAll(other, rows).value.1
  {
    if rows != [] {
      EncodeAllSameFailures(encode, other, rows[..|rows| - 1]);
    }
  }

  /**
    `load_data`: for each data row, copy `row[:17]`, overwrite the month, the
    visitor type and the weekend cell in place, and append the label.
   */
  method LoadData(rows: seq<seq<string>>) returns (r: Outcome<(seq<seq<Value>>, seq<int>), LoadError>)
    ensures r == Load(rows)
  {
    if rows == [] {
      return Err(MissingHeader);
    }
    var data := rows[1..];
    var evidence: seq<seq<Value>> := [];
    var labels: seq<int> := [];
    for i := 0 to |data|
      invariant EncodeAll(SourceRowEncoder, data[..i]) == Ok((evidence, labels))
    {
      var row := data[i];
      EncodeAllStep(SourceRowEncoder, data, i);
      var encoded := EncodeOneRow(row);
      if encoded.Err? {
        EncodeAllKeepsError(SourceRowEncoder, data, i + 1);
        return Err(encoded.error);
      }
      assert EncodeAll(SourceRowEncoder, data[..i + 1]) == Ok((evidence + [encoded.value], labels + [Label(row)]));
      evidence := evidence + [encoded.value];
      labels := labels + [if row[|row| - 1] == "TRUE" then 1 else 0];
    }
    assert data[..|data|] == data;
    return Ok((evidence, labels));
  }

  /**
    What `load_data` returns: an error when there is no header row or some data
    row cannot be encoded; otherwise, for each data row in order, its encoding
    and its label.
   */
  lemma LoadSpec(rows: seq<seq<string>>)
    ensures Load(rows).Err? <==> rows == [] || exists k :: 1 <= k < |rows| && EncodeRow(rows[k]).Err?
    ensures Load(rows).Ok? ==>
      && |Load(rows).value.0| == |rows| - 1
      && |Load(rows).value.1| == |rows| - 1
      && forall k | 1 <= k < |rows| ::
           && EncodeRow(rows[k]) == Ok(Load(rows).value.0[k - 1])
           && Load(rows).value.1[k - 1] == Label(rows[k])
  {
    if rows != [] {
      var data := rows[1..];
      EncodeAllFails(SourceRowEncoder, data);
      assert forall k | 1 <= k < |rows| :: data[k - 1] == rows[k];
      if EncodeAll(SourceRowEncoder, data).Err? {
        var j :| 0 <= j < |data| && EncodeRow(data[j]).Err?;
        assert EncodeRow(rows[j + 1]).Err?;
      } else {
        EncodeAllShape(SourceRowEncoder, data);
      }
    }
  }

  /** What the encoding makes of each column of a row that it accepts. */
  lemma EncodeRowColumns(row: seq<string>)
    requires EncodeRow(row).Ok?
    ensures MonthIndex(row[10]).Some?
    ensures EncodeRow(row).value[10] == Number(MonthIndex(row[10]).value)
    ensures EncodeRow(row).value[15] == Number(1) <==> row[15] == "Returning_Visitor"
    ensures EncodeRow(row).value[15] == Number(0) <==> row[15] != "Returning_Visitor"
    ensures EncodeRow(row).value[16] == Number(0)
    ensures forall i | 0 <= i < 17 && i != 10 && i != 15 && i != 16 :: EncodeRow(row).value[i] == Text(row[i])
  {
  }

  /** A row whose Weekend column is `TRUE` still gets 0 there. */
  lemma WeekendIgnored()
    ensures var row := ["0", "0", "0", "0", "1", "0", "0", "0", "0", "0", "Feb", "1", "1", "1", "1",
                        "Returning_Visitor", "TRUE", "FALSE"];
      && row[16] == "TRUE"
      && EncodeRow(row).Ok?
      && EncodeRow(row).value[16] == Number(0)
  {
    var row := ["0", "0", "0", "0", "1", "0", "0", "0", "0", "0", "Feb", "1", "1", "1", "1",
                "Returning_Visitor", "TRUE", "FALSE"];
    assert Prefix3(row[10]) == Months()[1];
  }

  /** The weekend column as the comment of `load_data` describes it: 1 when the Weekend cell is `TRUE`, else 0. */
  function EncodeRowIntended(row: seq<string>): (r: Outcome<seq<Value>, LoadError>)
    ensures r.Ok? <==> EncodeRow(row).Ok?
    ensures r.Ok? ==> |r.value| == 17 && |row| >= 17
    ensures r.Ok? ==> (r.value[16] == Number(1) <==> row[16] == "TRUE")
    ensures r.Ok? ==> (r.value[16] == Number(0) <==> row[16] != "TRUE")
    ensures r.Ok? ==> forall i | 0 <= i < 16 :: r.value[i] == EncodeRow(row).value[i]
  {
    match EncodeRow(row)
    case Err(e) => Err(e)
    case Ok(cells) => Ok(cells[16 := Number(if row[16] == "TRUE" then 1 else 0)])
  }

  /** The corrected row encoding, as a value that `EncodeAll` takes. */
  const IntendedRowEncoder: RowEncoder := EncodeRowIntended

  /** `load_data` with the weekend column encoded as intended. */
  function LoadIntended(rows: seq<seq<string>>): (r: Outcome<(seq<seq<Value>>, seq<int>), LoadError>)
    ensures rows == [] ==> r == Err(MissingHeader)
    ensures r.Ok? ==> |r.value.0| == |rows| - 1 && |r.value.1| == |rows| - 1
  {
    if rows == [] then Err(MissingHeader) else EncodeAll(IntendedRowEncoder, rows[1..])
  }

  /**
    The corrected load fails exactly when the source's does and reads the same
    labels; each of its evidence rows is the corrected encoding of its row.
   */
  lemma LoadIntendedSpec(rows: seq<seq<string>>)
    ensures LoadIntended(rows).Ok? <==> Load(rows).Ok?
    ensures LoadIntended(rows).Ok? ==>
      && LoadIntended(rows).value.1 == Load(rows).value.1
      && |LoadIntended(rows).value.0| == |rows| - 1
      && forall k | 1 <= k < |rows| :: EncodeRowIntended(rows[k]) == Ok(LoadIntended(rows).value.0[k - 1])
  {
    if rows != [] {
      var data := rows[1..];
      assert forall row :: SourceRowEncoder(row).Ok? <==> IntendedRowEncoder(row).Ok?;
      EncodeAllSameFailures(SourceRowEncoder, IntendedRowEncoder, data);
      if LoadIntended(rows).Ok? {
        EncodeAllShape(IntendedRowEncoder, data);
        assert forall k | 1 <= k < |rows| :: data[k - 1] == rows[k];
      }
    }
  }

  /**
    Row by row, the corrected load differs from the source's only in the
    weekend column, which holds 1 exactly for a Weekend cell `TRUE`.
   */
  lemma LoadIntendedAgrees(rows: seq<seq<string>>, k: nat)
    requires 1 <= k < |rows|
    ensures Load(rows).Ok? ==>
      && LoadIntended(rows).Ok?
      && |rows[k]| >= 17
      && LoadIntended(rows).value.0[k - 1]
         == Load(rows).value.0[k - 1][16 := Number(if rows[k][16] == "TRUE" then 1 else 0)]
  {
    if Load(rows).Ok? {
      LoadSpec(rows);
      LoadIntendedSpec(rows);
      assert EncodeRow(rows[k]) == Ok(Load(rows).value.0[k - 1]);
    }
  }
}
