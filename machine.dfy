/** `PriceMachine`: the object that owns the stored records, fills them from a
    directory of price lists, searches them and numbers them for export. */
module Machine {
  import opened Wrappers
  import opened Text
  import opened Headers
  import opened Records
  import opened Search
  import opened Ingest

  /** One data row of the exported table: its number and the record's five fields,
      in the order of the table's columns. */
  datatype ExportRow = ExportRow(number: int, name: string, price: int, weight: int, source: string, unitTenths: int)
  {
    /** The record a row was made from, without its number. */
    function Item(): Record {
      Record(name, price, weight, source, unitTenths)
    }
  }

  /** The body of the per-file `try` of `load_prices` once the file is known to be
      non-empty: resolves the header row, then normalises the data rows one by one
      into a batch, stopping at the first row that raises. */
  method NormalizeFile(table: Table, file: string) returns (batch: Result<seq<Record>, RowError>)
    requires table != []
    ensures batch == NormalizeRows(table[1..], Resolve(table[0]), file)
  {
    var hm := Resolve(table[0]);
    var rows := table[1..];
    var records: seq<Record> := [];
    var i := 0;
    while i < |rows|
      invariant 0 <= i <= |rows|
      invariant NormalizeRows(rows[..i], hm, file) == Success(records)
    {
      var row := NormalizeRow(rows[i], hm, file);
      NormalizeRowsStep(rows, i, hm, file, records);
      if row.Failure? {
        return Failure(row.error);
      }
      records := records + [row.value];
      i := i + 1;
    }
    assert rows[..i] == rows;
    batch := Success(records);
  }

  /** One pass of the file loop of `load_prices`: opens the file, skips it when it
      cannot be read or is empty, and otherwise keeps its batch only when no row
      raised. */
  method ReadFile(file: string, dir: Directory) returns (added: seq<Record>)
    ensures added == FileRecords(file, dir)
  {
    added := [];
    if file in dir.readable {
      var table := dir.readable[file];
      if table != [] {
        var batch := NormalizeFile(table, file);
        if batch.Success? {
          added := batch.value;
        }
      }
    }
  }

  class PriceMachine {
    /** `self.data`: every record loaded so far, in load order. */
    var data: seq<Record>

    /** Every stored record is well formed: the records only ever come from
        `NormalizeRow`. */
    ghost predicate Valid()
      reads this
    {
      forall rec :: rec in data ==> WellFormed(rec)
    }

    constructor ()
      ensures Valid() && data == []
    {
      data := [];
    }

    /** `load_prices`: appends the records of every readable price list of `dir`
        whose data rows all normalise, and returns all stored records; a missing
        directory or a listing without price list raises and changes nothing. */
    method LoadPrices(dir: Directory) returns (r: Result<seq<Record>, LoadError>)
      requires Valid()
      modifies this
      ensures Valid()
      ensures Load(old(data), dir).Success? ==> r == Success(data) && data == Load(old(data), dir).value
      ensures Load(old(data), dir).Failure? ==> r == Load(old(data), dir) && data == old(data)
    {
      if !dir.present {
        return Failure(DirectoryNotFound);
      }
      var priceFiles := PriceFiles(dir.listing);
      if priceFiles == [] {
        return Failure(NoPriceFiles);
      }
      var k := 0;
      while k < |priceFiles|
        invariant 0 <= k <= |priceFiles|
        invariant data == old(data) + Ingested(priceFiles[..k], dir)
        invariant Valid()
      {
        var file := priceFiles[k];
        var added := ReadFile(file, dir);
        FileRecordsWellFormed(file, dir);
        IngestedStep(old(data), priceFiles, k, dir, data);
        data := data + added;
        k := k + 1;
      }
      assert priceFiles[..k] == priceFiles;
      r := Success(data);
    }

    /** `find_text`: the stored records whose name contains `text`, each as often
        as it is stored, sorted stably by unit price; reads the stored records and
        changes nothing. */
    function FindText(text: string): (r: seq<Record>)
      reads this
      ensures SortedByUnit(r)
      ensures forall x :: x in r <==> x in data && Contains(x.name, text)
      ensures forall x :: multiset(r)[x] == if Contains(x.name, text) then multiset(data)[x] else 0
      ensures forall k :: WithUnit(r, k) == Matching(WithUnit(data, k), text)
    {
      Search.Search(data, text)
    }

    /** The data rows of `export_to_html`: the stored records in stored order,
        numbered from 1; every exported unit price is the rounded quotient of the
        row's price and non-zero weight. */
    method ExportRows() returns (rows: seq<ExportRow>)
      requires Valid()
      ensures |rows| == |data|
      ensures forall i :: 0 <= i < |rows| ==> rows[i].number == i + 1 && rows[i].Item() == data[i]
      ensures forall i :: 0 <= i < |rows| ==>
        rows[i].weight != 0 && rows[i].unitTenths == RoundTenths(rows[i].price, rows[i].weight)
    {
      rows := [];
      var number := 0;
      while number < |data|
        invariant 0 <= number <= |data|
        invariant |rows| == number
        invariant forall i :: 0 <= i < number ==> rows[i].number == i + 1 && rows[i].Item() == data[i]
      {
        var item := data[number];
        rows := rows + [ExportRow(number + 1, item.name, item.price, item.weight, item.source, item.unitTenths)];
        number := number + 1;
      }
      assert forall i :: 0 <= i < |rows| ==> data[i] in data;
    }
  }
}
