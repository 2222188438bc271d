/** Row normalisation: one data row of a price list, read through the resolved
    header positions, becomes one product record or raises. */
module Records {
  import opened Wrappers
  import opened Text
  import opened Headers

  /** `[name, price, weight, file_name, price_per_kg]`; the unit price is kept as a
      whole number of tenths (`unitTenths / 10` is the exported price per unit). */
  datatype Record = Record(name: string, price: int, weight: int, source: string, unitTenths: int)

  /** The exception a row raises, in the order Python evaluates the row:
      `NoColumn`   indexing with an unresolved (`None`) position, a `TypeError`;
      `ShortRow`   a resolved position past the end of the row, an `IndexError`;
      `NotAnInteger` `int()` of a price or weight cell, a `ValueError`;
      `ZeroWeight` dividing by a weight of 0, a `ZeroDivisionError`. */
  datatype RowError = NoColumn | ShortRow | NotAnInteger | ZeroWeight

  function Abs(x: int): nat { if x < 0 then -x else x }

  /** `n / d` rounded to the nearest whole number, an exact half going to the even
      neighbour. */
  function RoundDiv(n: int, d: int): (r: int)
    requires d > 0
    ensures 2 * Abs(r * d - n) <= d
    ensures 2 * Abs(r * d - n) == d ==> r % 2 == 0
  {
    var q := n / d;
    var m := n % d;
    var r := if 2 * m < d then q else if 2 * m > d then q + 1 else if q % 2 == 0 then q else q + 1;
    assert q * d - n == -m;
    assert (q + 1) * d - n == d - m;
    r
  }

  /** `round(price / weight, 1)` counted in tenths: the whole number nearest to
      `10 * price / weight`, an exact half going to the even neighbour. */
  function RoundTenths(price: int, weight: int): (r: int)
    requires weight != 0
    ensures 2 * Abs(r * weight - 10 * price) <= Abs(weight)
    ensures 2 * Abs(r * weight - 10 * price) == Abs(weight) ==> r % 2 == 0
  {
    if weight > 0 then RoundDiv(10 * price, weight)
    else
      var r := RoundDiv(-10 * price, -weight);
      assert r * weight - 10 * price == -(r * -weight - -10 * price);
      r
  }

  /** A multiple `k * d` of a non-negative `d` with `|k| >= 2` is at least `2 * d` away
      from zero. */
  lemma MulBound(k: int, d: nat)
    ensures k >= 2 ==> k * d >= 2 * d
    ensures k <= -2 ==> k * d <= -2 * d
  {
    if k >= 2 {
      var j: nat := k - 2;
      assert k * d == 2 * d + j * d;
    } else if k <= -2 {
      var j: nat := -k - 2;
      assert k * d == -2 * d - j * d;
    }
  }

  /** Two whole numbers both within half a step of `x / d` are equal or neighbours,
      and then both lie exactly half a step away. */
  lemma CloseMultiples(t: int, r: int, x: int, d: int)
    requires d > 0 && t != r
    requires 2 * Abs(t * d - x) <= d && 2 * Abs(r * d - x) <= d
    ensures Abs(t - r) == 1
    ensures 2 * Abs(t * d - x) == d && 2 * Abs(r * d - x) == d
  {
    var a, b := t * d - x, r * d - x;
    var k := t - r;
    assert a - b == k * d;
    MulBound(k, d);
    if k == 1 {
      assert a == b + d;
    } else {
      assert k == -1;
      assert b == a + d;
    }
  }

  /** `RoundDiv` is determined by its defining property: any whole number within half
      a step of `n / d`, and even at an exact half, is `RoundDiv(n, d)`. */
  lemma RoundDivUnique(n: int, d: int, t: int)
    requires d > 0
    requires 2 * Abs(t * d - n) <= d
    requires 2 * Abs(t * d - n) == d ==> t % 2 == 0
    ensures t == RoundDiv(n, d)
  {
    var r := RoundDiv(n, d);
    if t != r {
      CloseMultiples(t, r, n, d);
    }
  }

  /** The tenths count is determined by its defining property: any whole number
      within half a step of `10 * price / weight`, even at an exact half, is it. */
  lemma RoundTenthsUnique(price: int, weight: int, t: int)
    requires weight != 0
    requires 2 * Abs(t * weight - 10 * price) <= Abs(weight)
    requires 2 * Abs(t * weight - 10 * price) == Abs(weight) ==> t % 2 == 0
    ensures t == RoundTenths(price, weight)
  {
    if weight > 0 {
      RoundDivUnique(10 * price, weight, t);
    } else {
      assert t * -weight - -10 * price == -(t * weight - 10 * price);
      RoundDivUnique(-10 * price, -weight, t);
    }
  }

  /** What every stored record satisfies: a trimmed lower-case name, a non-zero
      weight and a unit price consistent with its price and weight. */
  predicate WellFormed(rec: Record) {
    IsLowered(rec.name) && IsStripped(rec.name)
    && rec.weight != 0 && rec.unitTenths == RoundTenths(rec.price, rec.weight)
  }

  /** `row[index]`, which raises for an unresolved or out-of-range position. */
  function Cell(row: seq<string>, index: Option<nat>): Result<string, RowError> {
    match index
    case None => Failure(NoColumn)
    case Some(i) => if i < |row| then Success(row[i]) else Failure(ShortRow)
  }

  /** `int(row[index])`. */
  function IntCell(row: seq<string>, index: Option<nat>): Result<int, RowError> {
    var cell := Cell(row, index);
    if cell.Failure? then Failure(cell.error)
    else if ParseInt(cell.value).None? then Failure(NotAnInteger)
    else Success(ParseInt(cell.value).value)
  }

  /** The record of one row from its name cell and its parsed price and weight. */
  function MakeRecord(nameCell: string, price: int, weight: int, source: string): (rec: Record)
    requires weight != 0
    ensures WellFormed(rec) && rec.source == source
  {
    NormalizedName(nameCell);
    Record(Strip(Lower(nameCell)), price, weight, source, RoundTenths(price, weight))
  }

  /** The body of the row loop of `load_prices`: the record built from one data row
      of the file `source`, or the exception that row raises. The name cell is read
      first, then the price, then the weight, and the division comes last. */
  function NormalizeRow(row: seq<string>, hm: HeaderMap, source: string): Result<Record, RowError> {
    var name := Cell(row, hm.name);
    var price := IntCell(row, hm.price);
    var weight := IntCell(row, hm.weight);
    if name.Failure? then Failure(name.error)
    else if price.Failure? then Failure(price.error)
    else if weight.Failure? then Failure(weight.error)
    else if weight.value == 0 then Failure(ZeroWeight)
    else Success(MakeRecord(name.value, price.value, weight.value, source))
  }

  /** A row normalises exactly when its name cell exists, its price and weight cells
      exist and parse as integers, and the weight is not zero; the record then holds
      the normalised name cell, the two parsed integers, the file name and the
      rounded unit price. */
  lemma NormalizeRowSucceeds(row: seq<string>, hm: HeaderMap, source: string)
    ensures NormalizeRow(row, hm, source).Success? <==>
      Cell(row, hm.name).Success? && IntCell(row, hm.price).Success?
      && IntCell(row, hm.weight).Success? && IntCell(row, hm.weight).value != 0
    ensures NormalizeRow(row, hm, source).Success? ==>
      var price := IntCell(row, hm.price).value;
      var weight := IntCell(row, hm.weight).value;
      NormalizeRow(row, hm, source).value
        == Record(Strip(Lower(Cell(row, hm.name).value)), price, weight, source, RoundTenths(price, weight))
  {
  }

  /** A cell is read exactly when its position is resolved and inside the row. */
  lemma CellSucceeds(row: seq<string>, index: Option<nat>)
    ensures Cell(row, index) == Failure(NoColumn) <==> index.None?
    ensures Cell(row, index) == Failure(ShortRow) <==> index.Some? && index.value >= |row|
    ensures Cell(row, index).Success? ==> Cell(row, index).value == row[index.value]
  {
  }

  /** A numeric cell is read exactly when the cell is and `int()` accepts its text. */
  lemma IntCellSucceeds(row: seq<string>, index: Option<nat>)
    ensures IntCell(row, index).Success? <==>
      Cell(row, index).Success? && ParseInt(Cell(row, index).value).Some?
    ensures IntCell(row, index).Success? ==>
      IntCell(row, index).value == ParseInt(Cell(row, index).value).value
  {
  }

  /** The results of the rows in order, or the first row exception: the all-or-nothing
      outcome of a loop that stops at the first exception. */
  function Collect<T, E>(results: seq<Result<T, E>>): Result<seq<T>, E>
  {
    if results == [] then Success([])
    else match results[0]
      case Failure(e) => Failure(e)
      case Success(v) =>
        match Collect(results[1..])
        case Failure(e) => Failure(e)
        case Success(rest) => Success([v] + rest)
  }

  /** A collection succeeds exactly when every result does, and then holds the
      values in order. */
  lemma {:induction false} CollectAtomic<T, E>(results: seq<Result<T, E>>)
    ensures Collect(results).Success? <==> forall i :: 0 <= i < |results| ==> results[i].Success?
    ensures Collect(results).Success? ==>
      |Collect(results).value| == |results|
      && forall i :: 0 <= i < |results| ==> Collect(results).value[i] == results[i].value
  {
    if results != [] {
      CollectAtomic(results[1..]);
      assert forall i :: 1 <= i < |results| ==> results[i] == results[1..][i - 1];
    }
  }

  /** One more result extends a successful collection, and a failure ends it. */
  lemma {:induction false} CollectSnoc<T, E>(results: seq<Result<T, E>>, x: Result<T, E>)
    requires Collect(results).Success?
    ensures Collect(results + [x]) ==
      match x
      case Success(v) => Success(Collect(results).value + [v])
      case Failure(e) => Failure(e)
  {
    if results == [] {
      assert results + [x] == [x] && [x][1..] == [];
      assert Collect([x][1..]) == Success([]);
      assert Collect(results).value == [];
      if x.Success? {
        assert [x.value] + [] == [] + [x.value];
      }
    } else {
      var v := results[0].value;
      var rest := Collect(results[1..]).value;
      assert (results + [x])[0] == results[0];
      assert (results + [x])[1..] == results[1..] + [x];
      CollectSnoc(results[1..], x);
      if x.Success? {
        assert [v] + (rest + [x.value]) == ([v] + rest) + [x.value];
      }
    }
  }

  /** One step of a loop that collects `results` in order, after the first `i`
      have given `acc`: a success extends `acc`, a failure is the outcome of the
      whole collection. */
  lemma {:induction false} CollectStep<T, E>(results: seq<Result<T, E>>, i: nat, acc: seq<T>)
    requires i < |results| && Collect(results[..i]) == Success(acc)
    ensures
      match results[i]
      case Success(v) => Collect(results[..i + 1]) == Success(acc + [v])
      case Failure(e) => Collect(results) == Failure(e)
  {
    if results[i].Success? {
      assert results[..i + 1] == results[..i] + [results[i]];
      CollectSnoc(results[..i], results[i]);
    } else {
      CollectAtomic(results[..i]);
      assert forall j :: 0 <= j < i ==> results[..i][j] == results[j];
      CollectFailure(results, i);
    }
  }

  /** A failure after successes ends the collection with that failure. */
  lemma {:induction false} CollectFailure<T, E>(results: seq<Result<T, E>>, j: nat)
    requires j < |results| && results[j].Failure?
    requires forall i :: 0 <= i < j ==> results[i].Success?
    ensures Collect(results) == Failure(results[j].error)
  {
    if j > 0 {
      assert forall i :: 0 <= i < j - 1 ==> results[1..][i] == results[i + 1];
      CollectFailure(results[1..], j - 1);
    }
  }

  /** A single success collects to its value alone. */
  lemma CollectSingle<T, E>(results: seq<Result<T, E>>)
    requires |results| == 1 && results[0].Success?
    ensures Collect(results) == Success([results[0].value])
  {
    assert results[1..] == [];
    assert Collect(results[1..]) == Success([]);
    var v := results[0].value;
    assert [v] + [] == [v];
  }

  /** The outcome of each data row of a file, in row order. */
  function RowResults(rows: seq<seq<string>>, hm: HeaderMap, source: string): (r: seq<Result<Record, RowError>>)
    ensures |r| == |rows|
  {
    seq(|rows|, i requires 0 <= i < |rows| => NormalizeRow(rows[i], hm, source))
  }

  /** The row loop of one file: every record, in row order, or the first row's
      exception, which leaves no record of the file. */
  function NormalizeRows(rows: seq<seq<string>>, hm: HeaderMap, source: string): Result<seq<Record>, RowError>
  {
    Collect(RowResults(rows, hm, source))
  }

  /** A file's batch is all or nothing: it exists exactly when every row normalises. */
  lemma {:induction false} NormalizeRowsAtomic(rows: seq<seq<string>>, hm: HeaderMap, source: string)
    ensures NormalizeRows(rows, hm, source).Success? <==>
      forall i :: 0 <= i < |rows| ==> NormalizeRow(rows[i], hm, source).Success?
  {
    var rs := RowResults(rows, hm, source);
    CollectAtomic(rs);
    assert forall i :: 0 <= i < |rows| ==> rs[i] == NormalizeRow(rows[i], hm, source);
  }

  /** A file's batch holds one record per data row, the i-th built from the i-th row. */
  lemma {:induction false} NormalizeRowsContents(rows: seq<seq<string>>, hm: HeaderMap, source: string)
    requires NormalizeRows(rows, hm, source).Success?
    ensures |NormalizeRows(rows, hm, source).value| == |rows|
    ensures forall i :: 0 <= i < |rows| ==>
      NormalizeRow(rows[i], hm, source).Success?
      && NormalizeRows(rows, hm, source).value[i] == NormalizeRow(rows[i], hm, source).value
  {
    var rs := RowResults(rows, hm, source);
    CollectAtomic(rs);
    forall i | 0 <= i < |rows|
      ensures NormalizeRow(rows[i], hm, source).Success?
      ensures Collect(rs).value[i] == NormalizeRow(rows[i], hm, source).value
    {
      assert rs[i] == NormalizeRow(rows[i], hm, source);
    }
  }

  /** One step of the row loop over `rows`, after the first `i` rows have given
      `records`: a normalising row extends them, a raising row is the file's
      exception. */
  lemma {:induction false} NormalizeRowsStep(rows: seq<seq<string>>, i: nat, hm: HeaderMap, source: string, records: seq<Record>)
    requires i < |rows| && NormalizeRows(rows[..i], hm, source) == Success(records)
    ensures
      match NormalizeRow(rows[i], hm, source)
      case Success(rec) => NormalizeRows(rows[..i + 1], hm, source) == Success(records + [rec])
      case Failure(e) => NormalizeRows(rows, hm, source) == Failure(e)
  {
    RowResultsPrefix(rows, i, hm, source);
    RowResultsPrefix(rows, i + 1, hm, source);
    CollectStep(RowResults(rows, hm, source), i, records);
  }

  lemma RowResultsPrefix(rows: seq<seq<string>>, n: nat, hm: HeaderMap, source: string)
    requires n <= |rows|
    ensures RowResults(rows[..n], hm, source) == RowResults(rows, hm, source)[..n]
  {
  }

  /** A file with one data row that normalises yields exactly that row's record. */
  lemma NormalizeRowsSingle(rows: seq<seq<string>>, hm: HeaderMap, source: string, rec: Record)
    requires |rows| == 1 && NormalizeRow(rows[0], hm, source) == Success(rec)
    ensures NormalizeRows(rows, hm, source) == Success([rec])
  {
    var rs := RowResults(rows, hm, source);
    assert rs[0] == Success(rec);
    CollectSingle(rs);
  }

  /** Every record of a successful batch is well formed and labelled with its file. */
  lemma {:induction false} NormalizeRowsWellFormed(rows: seq<seq<string>>, hm: HeaderMap, source: string)
    requires NormalizeRows(rows, hm, source).Success?
    ensures forall rec :: rec in NormalizeRows(rows, hm, source).value ==> WellFormed(rec) && rec.source == source
  {
    NormalizeRowsContents(rows, hm, source);
  }
}
