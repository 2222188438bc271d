/** Ingestion of a directory of price lists: which files are read, what each file
    adds to the stored records, and when the whole load fails. */
module Ingest {
  import opened Wrappers
  import opened Text
  import opened Headers
  import opened Records

  /** A CSV file as `csv.reader` splits it: its rows, each a list of cells. */
  type Table = seq<seq<string>>

  /** What `load_prices` observes of the file system: whether the directory exists,
      the names `os.listdir` returns for it, in that order, and the table of every
      name that `open` can read. A listed name with no table is a file whose `open`
      or decoding raises. */
  datatype Directory = Directory(present: bool, listing: seq<string>, readable: map<string, Table>)

  /** The two exceptions that abort a load: `FileNotFoundError` for a missing
      directory and `ValueError` when no price list is listed. */
  datatype LoadError = DirectoryNotFound | NoPriceFiles

  /** `'price' in file and file.endswith('.csv')`. */
  predicate IsPriceFile(name: string) {
    Contains(name, "price") && EndsWith(name, ".csv")
  }

  /** `[file for file in listing if 'price' in file and file.endswith('.csv')]`. */
  function PriceFiles(listing: seq<string>): (r: seq<string>)
    ensures |r| <= |listing|
    ensures forall f :: f in r <==> f in listing && IsPriceFile(f)
  {
    if listing == [] then []
    else (if IsPriceFile(listing[0]) then [listing[0]] else []) + PriceFiles(listing[1..])
  }

  /** Selection keeps the listing's order: the price lists of two listings one after
      the other are those of the first followed by those of the second. */
  lemma {:induction false} PriceFilesAppend(a: seq<string>, b: seq<string>)
    ensures PriceFiles(a + b) == PriceFiles(a) + PriceFiles(b)
  {
    if a == [] {
      assert a + b == b;
    } else {
      assert (a + b)[0] == a[0];
      assert (a + b)[1..] == a[1..] + b;
      PriceFilesAppend(a[1..], b);
      var h := if IsPriceFile(a[0]) then [a[0]] else [];
      assert h + (PriceFiles(a[1..]) + PriceFiles(b)) == (h + PriceFiles(a[1..])) + PriceFiles(b);
    }
  }

  /** What one listed file adds to the stored records: nothing when it cannot be
      opened or is empty; otherwise its first row is the header row and the records
      of all its data rows are added if every data row normalises, and nothing if
      any row raises. */
  function FileRecords(name: string, dir: Directory): seq<Record> {
    if name !in dir.readable then []
    else
      var table := dir.readable[name];
      if table == [] then []
      else
        match NormalizeRows(table[1..], Resolve(table[0]), name)
        case Success(batch) => batch
        case Failure(_) => []
  }

  /** The records a sequence of files adds, file after file. */
  function Ingested(files: seq<string>, dir: Directory): seq<Record> {
    if files == [] then [] else FileRecords(files[0], dir) + Ingested(files[1..], dir)
  }

  /** `load_prices` on the stored records `data`: the new stored records, or the
      exception that aborts the load (leaving `data` as it was). */
  function Load(data: seq<Record>, dir: Directory): Result<seq<Record>, LoadError> {
    if !dir.present then Failure(DirectoryNotFound)
    else if PriceFiles(dir.listing) == [] then Failure(NoPriceFiles)
    else Success(data + Ingested(PriceFiles(dir.listing), dir))
  }

  // ---------------------------------------------------------------- the load as a whole

  /** A load fails for a missing directory before anything is listed, and for a
      listing without price list; it succeeds in every other case. */
  lemma LoadFailures(data: seq<Record>, dir: Directory)
    ensures Load(data, dir) == Failure(DirectoryNotFound) <==> !dir.present
    ensures Load(data, dir) == Failure(NoPriceFiles) <==>
      dir.present && forall f :: f in dir.listing ==> !IsPriceFile(f)
  {
    if dir.present && PriceFiles(dir.listing) != [] {
      assert PriceFiles(dir.listing)[0] in PriceFiles(dir.listing);
    }
  }

  /** A listing with a single price list loads exactly what that file adds. */
  lemma LoadSingleFile(data: seq<Record>, dir: Directory, name: string)
    requires dir.present && PriceFiles(dir.listing) == [name]
    ensures Load(data, dir) == Success(data + FileRecords(name, dir))
  {
    assert Ingested([name], dir) == FileRecords(name, dir) + Ingested([], dir);
    assert FileRecords(name, dir) + [] == FileRecords(name, dir);
  }

  /** The stored records only grow: what was stored before a load is a prefix of
      what is stored after it, and the new records follow in file order. */
  lemma {:induction false} LoadExtends(data: seq<Record>, dir: Directory)
    requires Load(data, dir).Success?
    ensures data <= Load(data, dir).value
    ensures Load(data, dir).value[|data|..] == Ingested(PriceFiles(dir.listing), dir)
  {
    var added := Ingested(PriceFiles(dir.listing), dir);
    assert (data + added)[..|data|] == data;
    assert (data + added)[|data|..] == added;
  }

  /** There is no de-duplication: loading the same directory twice stores every
      record of the first load a second time. */
  lemma LoadTwice(data: seq<Record>, dir: Directory)
    requires Load(data, dir).Success?
    ensures Load(Load(data, dir).value, dir).Success?
    ensures
      var added := Ingested(PriceFiles(dir.listing), dir);
      Load(Load(data, dir).value, dir).value == data + added + added
  {
  }

  /** Files are processed independently and in order: the records of a sequence of
      files are those of its first part followed by those of the rest, so a file that
      adds nothing does not stop the files after it. */
  lemma {:induction false} IngestedAppend(a: seq<string>, b: seq<string>, dir: Directory)
    ensures Ingested(a + b, dir) == Ingested(a, dir) + Ingested(b, dir)
  {
    if a == [] {
      assert a + b == b;
    } else {
      assert (a + b)[0] == a[0];
      assert (a + b)[1..] == a[1..] + b;
      IngestedAppend(a[1..], b, dir);
      var h := FileRecords(a[0], dir);
      assert h + (Ingested(a[1..], dir) + Ingested(b, dir)) == (h + Ingested(a[1..], dir)) + Ingested(b, dir);
    }
  }

  /** One step of the file loop: once the first `k` files have extended `start` to
      `current`, file `k` extends it by what that file adds. */
  lemma {:induction false} IngestedStep(start: seq<Record>, files: seq<string>, k: nat, dir: Directory, current: seq<Record>)
    requires k < |files| && current == start + Ingested(files[..k], dir)
    ensures start + Ingested(files[..k + 1], dir) == current + FileRecords(files[k], dir)
  {
    assert files[..k + 1] == files[..k] + [files[k]];
    IngestedAppend(files[..k], [files[k]], dir);
    var added := FileRecords(files[k], dir);
    assert Ingested([files[k]], dir) == added + Ingested([], dir);
    ConcatAssociative(start, Ingested(files[..k], dir), added);
  }

  lemma ConcatAssociative<T>(a: seq<T>, b: seq<T>, c: seq<T>)
    ensures a + (b + c) == (a + b) + c
  {
  }

  /** Every record a file adds is well formed and labelled with the file's name. */
  lemma {:induction false} FileRecordsWellFormed(name: string, dir: Directory)
    ensures forall rec :: rec in FileRecords(name, dir) ==> WellFormed(rec) && rec.source == name
  {
    if name in dir.readable && dir.readable[name] != [] {
      var table := dir.readable[name];
      if NormalizeRows(table[1..], Resolve(table[0]), name).Success? {
        NormalizeRowsWellFormed(table[1..], Resolve(table[0]), name);
      }
    }
  }

  /** Every record a load adds is well formed and labelled with one of the files. */
  lemma {:induction false} IngestedWellFormed(files: seq<string>, dir: Directory)
    ensures forall rec :: rec in Ingested(files, dir) ==> WellFormed(rec) && rec.source in files
  {
    if files != [] {
      IngestedWellFormed(files[1..], dir);
      var name := files[0];
      if name in dir.readable && dir.readable[name] != [] {
        var table := dir.readable[name];
        if NormalizeRows(table[1..], Resolve(table[0]), name).Success? {
          NormalizeRowsWellFormed(table[1..], Resolve(table[0]), name);
        }
      }
    }
  }

  // ---------------------------------------------------------------- one file

  /** A file is added whole or not at all: when every data row normalises it adds one
      record per data row, in row order, the i-th built from the i-th data row with
      the file's name as its label; when any data row raises it adds nothing. */
  lemma FileAllOrNothing(name: string, dir: Directory)
    requires name in dir.readable && dir.readable[name] != []
    ensures
      var table := dir.readable[name];
      var hm := Resolve(table[0]);
      (forall i :: 1 <= i < |table| ==> NormalizeRow(table[i], hm, name).Success?) ==>
        |FileRecords(name, dir)| == |table| - 1
        && forall i :: 1 <= i < |table| ==> FileRecords(name, dir)[i - 1] == NormalizeRow(table[i], hm, name).value
    ensures
      var table := dir.readable[name];
      (exists i :: 1 <= i < |table| && NormalizeRow(table[i], Resolve(table[0]), name).Failure?) ==>
        FileRecords(name, dir) == []
  {
    var table := dir.readable[name];
    var hm := Resolve(table[0]);
    var rows := table[1..];
    assert forall i :: 1 <= i < |table| ==> table[i] == rows[i - 1];
    NormalizeRowsAtomic(rows, hm, name);
    if NormalizeRows(rows, hm, name).Success? {
      NormalizeRowsContents(rows, hm, name);
    }
  }

  /** A file that cannot be opened, an empty file and a file holding only its header
      row add nothing and raise nothing, even when its header row resolves no column. */
  lemma NoDataRowsNothingAdded(name: string, dir: Directory)
    requires name !in dir.readable || |dir.readable[name]| <= 1
    ensures FileRecords(name, dir) == []
  {
    if name in dir.readable && |dir.readable[name]| == 1 {
      var table := dir.readable[name];
      assert RowResults(table[1..], Resolve(table[0]), name) == [];
    }
  }

  /** A file whose header row leaves the name, price or weight column unresolved adds
      nothing as soon as it has a data row: indexing with `None` raises on the first row. */
  lemma UnresolvedColumnSkipsFile(name: string, dir: Directory)
    requires name in dir.readable && |dir.readable[name]| >= 2
    requires
      var hm := Resolve(dir.readable[name][0]);
      hm.name.None? || hm.price.None? || hm.weight.None?
    ensures FileRecords(name, dir) == []
  {
    var table := dir.readable[name];
    NormalizeRowSucceeds(table[1], Resolve(table[0]), name);
    CellSucceeds(table[1], Resolve(table[0]).name);
    CellSucceeds(table[1], Resolve(table[0]).price);
    CellSucceeds(table[1], Resolve(table[0]).weight);
    IntCellSucceeds(table[1], Resolve(table[0]).price);
    IntCellSucceeds(table[1], Resolve(table[0]).weight);
    FileAllOrNothing(name, dir);
  }

  /** A data row with a zero weight, a non-integer price or weight, or fewer cells than
      a resolved column needs makes its whole file add nothing. */
  lemma BadRowSkipsFile(name: string, dir: Directory, i: nat)
    requires name in dir.readable && 1 <= i < |dir.readable[name]|
    requires
      var table := dir.readable[name];
      var hm := Resolve(table[0]);
      var row := table[i];
      (hm.name.Some? && hm.name.value >= |row|)
      || (hm.price.Some? && (hm.price.value >= |row| || ParseInt(row[hm.price.value]).None?))
      || (hm.weight.Some? && (hm.weight.value >= |row| || ParseInt(row[hm.weight.value]).None?
                              || ParseInt(row[hm.weight.value]) == Some(0)))
    ensures FileRecords(name, dir) == []
  {
    var table := dir.readable[name];
    NormalizeRowSucceeds(table[i], Resolve(table[0]), name);
    CellSucceeds(table[i], Resolve(table[0]).name);
    CellSucceeds(table[i], Resolve(table[0]).price);
    CellSucceeds(table[i], Resolve(table[0]).weight);
    IntCellSucceeds(table[i], Resolve(table[0]).price);
    IntCellSucceeds(table[i], Resolve(table[0]).weight);
    FileAllOrNothing(name, dir);
  }
}
