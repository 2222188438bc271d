# Price list analyser — a Dafny model of `PriceMachine`

`PriceMachine` (project.py) loads product price lists from CSV files into one
growing list of records, searches those records by a text fragment and exports them
as a numbered table. This project models its core in Dafny and proves what it
promises:

- **Header resolution** (`_search_product_price_weight`, module `Headers`). Each of
  the name, price and weight columns is the first header that is exactly one of a
  fixed list of Russian synonyms. If no header matches, the column is `None`.
- **Row normalisation** (the row loop of `load_prices`, module `Records`). A data row
  becomes a record `[name.lower().strip(), int(price), int(weight), file name,
  round(price / weight, 1)]`. Otherwise it raises one of four errors, in Python's
  order of evaluation: an unresolved column, a short row, a non-integer token, or a
  zero weight. The string primitives it uses (`lower`, `strip`, `in`, `endswith`,
  `int()`) are in module `Text`.
- **Ingestion** (`load_prices`, modules `Ingest` and `Machine`). The directory is an
  abstract value: whether it exists, its listing in order, and the table of every
  file name `open` can read. A missing directory raises `FileNotFoundError`, and a
  listing without a price list raises `ValueError`. Otherwise every file named
  `*price*.csv` is processed in listing order, and a file's records are appended only
  when every one of its data rows normalises. `Ingest.Load` is the function that
  specifies the load. `Machine.PriceMachine.LoadPrices` is the loop of the source,
  proved against it on a class whose `data` field is the stored record list.
- **Search** (`find_text`, module `Search`). It keeps the records whose name contains
  the query and sorts them stably by unit price, as a stable insertion sort.
- **Export numbering** (the row loop of `export_to_html`, `Machine.PriceMachine.ExportRows`).
  It numbers the stored records 1..n in stored order, each with its five fields.

The unit price is kept exactly, as a whole number of tenths (`unitTenths`): the
rational `price / weight` rounded to one decimal, ties to even.

Where the description of the program and its code differ, the model follows the code:

- A data row that raises discards the whole file. `self.data += filtered_data` sits
  after the row loop and inside the `try`, so no row is salvaged.
- Negative prices and weights are accepted. `int()` reads a sign, and only a weight
  of zero makes the division fail.
- An unresolved column makes a file add nothing only once the file has a data row.
  A file holding just its header row adds nothing and raises nothing, whatever the
  header says.

## Model

| member | source | states |
|---|---|---|
| Headers.FirstMatchFrom | project.py:79-81 | the result is the first position at or after `from` whose header is accepted; no position before it is accepted |
| Headers.FirstMatch | project.py:79-81 | the result is the smallest position whose header is exactly an accepted text, or `None` when no header is |
| Headers.Resolve | project.py:79-83 | name, price and weight columns are each the first header in their own synonym list, or `None` |
| Headers.FirstMatchUnique | project.py:79-81 | the first-match description determines the result: two answers that meet it are equal |
| Headers.FirstMatchIgnoresLater | project.py:79-81 | headers appended after a matched column never change it, so later duplicates are ignored |
| Headers.DuplicateHeaderIgnored | project.py:79-83 | a header row repeating `цена` resolves the price to its first occurrence |
| Headers.ExactMatchOnly | project.py:79-83 | a capitalised `Товар` and a padded ` цена` are not recognised; matching is exact |
| Text.LowerChar | project.py:54 | the lowered character is never upper case, and a character that is not upper case is unchanged |
| Text.Lower | project.py:54 | `lower()` keeps the length and lowers each character in place |
| Text.LowerIsLowered | project.py:54 | a lowered string has no upper-case letter |
| Text.LowerOfLowered | project.py:54 | lowering a string without upper-case letters leaves it unchanged |
| Text.TrimStart | project.py:54 | the result is a suffix of the input and does not start with white space |
| Text.TrimStartCut | project.py:54 | everything `TrimStart` removes, the prefix before the suffix it keeps, is white space |
| Text.TrimEnd | project.py:54 | the result is a prefix of the input and does not end with white space |
| Text.TrimEndCut | project.py:54 | everything `TrimEnd` removes, the suffix after the prefix it keeps, is white space |
| Text.Strip | project.py:54 | `strip()` leaves no white space at either end and never lengthens the string |
| Text.StripSlice | project.py:54 | `strip()` returns a slice of its input, with only white space cut off on both sides |
| Text.StripStripped | project.py:54 | stripping a string with no white space at its ends returns it unchanged |
| Text.NormalizedName | project.py:54 | the name key `cell.lower().strip()` has no upper-case letter and no surrounding white space |
| Text.NormalizedNameStable | project.py:54 | normalising a name key a second time changes nothing |
| Text.ContainsIff | project.py:155 | `sub in s` holds exactly when `sub` occurs in `s` at some position |
| Text.ContainsEmpty | project.py:155 | every string contains the empty query |
| Text.Contains | project.py:34 | no contract of its own: `Text.ContainsIff` states that `sub in s` holds exactly when `sub` occurs in `s` at some position, and `Text.ContainsEmpty` covers the empty query |
| Text.EndsWith | project.py:34 | no contract of its own: `s.endswith(t)` holds when `s` is at least as long as `t` and its last characters spell `t`; `Ingest.PriceFiles` states the selection built on it |
| Text.ParseInt | project.py:55-56 | no contract of its own: `Text.ParseIntAccepts` states which tokens `int()` accepts, and `Text.ParseDigits`, `Text.ParsePlus`, `Text.ParseMinus` and `Text.ParseIntPadded` the value of every accepted token |
| Text.ParseIntAccepts | project.py:55-56 | `int()` succeeds exactly when the token holds none of the information separators U+001C to U+001F and, stripped, is an optional sign followed by one or more ASCII digits; every other token raises |
| Text.ParseLiteral | project.py:55-56 | a stripped token has a value exactly when it is an optional sign followed by one or more ASCII digits |
| Text.ParseIntPadded | project.py:55-56 | white space around a token, other than an information separator, does not change its value: `int(" 12 ") == int("12")` |
| Text.ParsePlus | project.py:55-56 | a `+` followed by digits reads as the digits' value: `int("+5") == 5` |
| Text.ParseMinus | project.py:55-56 | a `-` followed by digits, leading zeros included, reads as the digits' value negated: `int("-007") == -7` |
| Text.ParseIntRejectsChar | project.py:55-56 | a token holding a character that is not white space, a digit or a sign (`1.5`, `12кг`) makes `int()` raise |
| Text.ParseIntRejectsInnerSpace | project.py:55-56 | white space between two other characters of a token (`1 000`) makes `int()` raise |
| Text.StripKept | project.py:54-56 | every character that is not white space lies inside the slice `strip()` keeps |
| Text.ParseDigits | project.py:55-56 | `int()` reads a non-empty string of ASCII digits as its decimal value |
| Text.NatToString | project.py:55-56 | the decimal spelling of a number is a non-empty string of digits |
| Text.NatToStringValue | project.py:55-56 | reading the digits of a number's decimal spelling gives back the number |
| Text.ParseIntRoundTrip | project.py:55-56 | `int(str(i)) == i` for every integer `i`, negative ones included |
| Records.RoundDiv | project.py:58 | the result is within half a step of `n / d`, and an exact tie is broken towards the even quotient |
| Records.RoundTenths | project.py:58 | the unit price in tenths is within half a tenth of `price / weight`, ties to even, for either sign of the weight |
| Records.RoundDivUnique | project.py:58 | any quotient within half a step that breaks ties to even is the rounded one |
| Records.RoundTenthsUnique | project.py:58 | the rounding description determines the unit price: any value meeting it equals `RoundTenths` |
| Records.MakeRecord | project.py:54-60 | every record built from a row is well formed (normalised name, non-zero weight, consistent unit price) and carries the file's name |
| Records.NormalizeRowSucceeds | project.py:53-60 | a row normalises exactly when the name cell exists, the price and weight cells exist and parse, and the weight is not zero; the record then holds the stripped lower-case name, both integers, the file name and the rounded unit price |
| Records.CellSucceeds | project.py:54-56 | indexing raises `NoColumn` exactly for an unresolved column and `ShortRow` exactly for a position past the end; otherwise it reads that cell |
| Records.Cell | project.py:54-56 | no contract of its own: `Records.CellSucceeds` states its error cases and the cell it reads |
| Records.IntCell | project.py:55-56 | no contract of its own: `Records.IntCellSucceeds` states when it reads a number and which one |
| Records.NormalizeRow | project.py:54-60 | no contract of its own: `Records.NormalizeRowSucceeds` states when a row normalises and the record it yields, and `Records.MakeRecord` that the record is well formed |
| Records.NormalizeRows | project.py:53-61 | no contract of its own: `Records.NormalizeRowsAtomic` states the batch exists exactly when every row normalises, `Records.NormalizeRowsContents` what it holds, and `Records.NormalizeRowsWellFormed` that its records are well formed |
| Records.IntCellSucceeds | project.py:55-56 | a numeric cell is read exactly when the cell exists and `int()` accepts it, and its value is the parse |
| Records.CollectAtomic | project.py:51-61 | a loop that stops at the first exception succeeds exactly when every step succeeds, and then holds every value in order |
| Records.CollectSnoc | project.py:53-60 | one more success extends a successful collection; one more failure turns it into that failure |
| Records.CollectStep | project.py:53-60 | after `i` successes, step `i` either extends the collection or is the failure of the whole sequence |
| Records.CollectFailure | project.py:53-63 | the first failure after successes is the outcome of the whole collection |
| Records.CollectSingle | project.py:53-61 | a single success collects to its value alone |
| Records.NormalizeRowsAtomic | project.py:51-65 | a file's batch exists exactly when every data row normalises |
| Records.NormalizeRowsContents | project.py:51-61 | a successful batch holds one record per data row, in row order, the i-th from the i-th row |
| Records.NormalizeRowsStep | project.py:53-60 | one pass of the row loop: a normalising row appends its record, and a raising row's error is the file's |
| Records.NormalizeRowsSingle | project.py:53-61 | a file with one normalising data row yields exactly that row's record |
| Records.NormalizeRowsWellFormed | project.py:53-61 | every record of a successful batch is well formed and labelled with its file |
| Search.Matching | project.py:155 | no contract of its own: `Search.MatchingCount` states which records it keeps and how often, and `Search.MatchingAppend` that it keeps the stored order |
| Search.MatchingCount | project.py:155 | the filter keeps each record whose name contains the query as often as it is stored, and no other record |
| Search.SortByUnit | project.py:155 | the sorted sequence is ordered by unit price and is a permutation of its input |
| Search.InsertSorted | project.py:155 | inserting into a sorted sequence keeps it sorted and adds exactly that record |
| Search.WithUnitAppend | project.py:155 | the records of one unit price in a concatenation are those of each part, in order |
| Search.WithUnitInsert | project.py:155 | an inserted record goes ahead of every record with its unit price |
| Search.SortStable | project.py:155 | the sort is stable: for each unit price its records keep their order |
| Search.MatchingAppend | project.py:155 | filtering a concatenation filters each part, in order |
| Search.MatchingWithUnit | project.py:155 | filtering by name and selecting one unit price commute |
| Search.Search | project.py:155 | the result is sorted by unit price, holds exactly the matching records with their multiplicities, and for each unit price lists its matching records in stored order |
| Search.SortStableMatching | project.py:155 | the sorted matches of each unit price are the stored matches of that price in stored order |
| Search.SearchMatches | project.py:155 | every record the search returns is stored and contains the query |
| Search.SortedUnique | project.py:155 | two sequences sorted by unit price with the same records of each unit price, in the same order, are equal |
| Search.WithUnitBounded | project.py:155 | in a sorted sequence no record has a unit price below the first one, and the first record of the head's price is the head |
| Search.SearchUnique | project.py:155 | the search result is the only sorted sequence holding, for each unit price, that price's matching records in stored order |
| Search.MatchingEmpty | project.py:155 | the empty query keeps every record, in order |
| Search.MatchingAll | project.py:155 | filtering records that all match keeps them all, in order |
| Search.WithUnitIn | project.py:155 | a record selected for a unit price is stored and has that unit price |
| Search.SearchEmptyQuery | project.py:155 | the empty query returns every stored record, sorted stably by unit price |
| Search.SearchIdempotent | project.py:155 | searching a search result again with the same query returns it unchanged |
| Ingest.IsPriceFile | project.py:34 | no contract of its own: `Ingest.PriceFiles` states that exactly the names it accepts are selected |
| Ingest.FileRecords | project.py:40-65 | no contract of its own: `Ingest.FileAllOrNothing`, `Ingest.NoDataRowsNothingAdded`, `Ingest.UnresolvedColumnSkipsFile`, `Ingest.BadRowSkipsFile` and `Ingest.FileRecordsWellFormed` state what one file adds |
| Ingest.Ingested | project.py:39-65 | no contract of its own: `Ingest.IngestedAppend` states that files contribute independently in processing order, and `Ingest.IngestedWellFormed` that every record it adds is well formed |
| Ingest.Load | project.py:31-67 | no contract of its own: `Ingest.LoadFailures` states when it raises, and `Ingest.LoadExtends` and `Ingest.LoadTwice` what a successful load stores |
| Ingest.PriceFiles | project.py:34 | a listed name is selected exactly when it contains `price` and ends with `.csv`; nothing else is selected |
| Ingest.PriceFilesAppend | project.py:34 | selection keeps the listing's order |
| Ingest.LoadFailures | project.py:31-37 | the load raises `FileNotFoundError` exactly when the directory is missing, and `ValueError` exactly when it exists but lists no price list |
| Ingest.LoadSingleFile | project.py:34-67 | with one price list listed, the load appends exactly what that file adds |
| Ingest.LoadExtends | project.py:39-67 | the stored records before a load are a prefix of those after it, followed by the files' records in file order |
| Ingest.LoadTwice | project.py:39-67 | there is no de-duplication: loading the same directory twice appends its records twice |
| Ingest.IngestedAppend | project.py:39-65 | files are processed independently and in order: the records of two runs of files are those of each, concatenated |
| Ingest.IngestedStep | project.py:39-61 | one pass of the file loop appends exactly what that file adds |
| Ingest.FileRecordsWellFormed | project.py:53-61 | every record a file adds is well formed and labelled with the file's name |
| Ingest.IngestedWellFormed | project.py:39-61 | every record a load adds is well formed and labelled with one of the processed files |
| Ingest.FileAllOrNothing | project.py:51-65 | when every data row normalises, a file adds one record per data row in row order; when any row raises it adds nothing |
| Ingest.NoDataRowsNothingAdded | project.py:41-53 | an unreadable file, an empty file and a header-only file add nothing, even when the header resolves no column |
| Ingest.UnresolvedColumnSkipsFile | project.py:49-56 | a file whose header leaves a column unresolved adds nothing once it has a data row |
| Ingest.BadRowSkipsFile | project.py:53-65 | one short row, non-integer price or weight, or zero weight makes the whole file add nothing |
| Machine.NormalizeFile | project.py:48-60 | the row loop returns the file's batch, or the first raising row's error, exactly as the batch specification says |
| Machine.ReadFile | project.py:40-65 | one pass of the file loop yields exactly what that file adds: nothing if it cannot be read, is empty or has a raising row |
| Machine.PriceMachine.constructor | project.py:15-16 | a new machine stores no record and satisfies its invariant |
| Machine.PriceMachine.LoadPrices | project.py:18-67 | on success the stored records become the loaded ones and are returned; on either exception they are left unchanged; every stored record stays well formed |
| Machine.PriceMachine.FindText | project.py:145-157 | the result is sorted by unit price, holds each stored record whose name contains the query exactly as often as it is stored and no other record, and for each unit price lists those records in stored order (the sort is stable) |
| Machine.PriceMachine.ExportRows | project.py:120-131 | one exported row per stored record, the i-th numbered i + 1 and carrying the i-th record's five fields; every exported weight is non-zero and every exported unit price is the rounded quotient of its price and weight |
| Scenarios.ParseHundred | project.py:55 | `int("100")` is 100 |
| Scenarios.ParseTwo | project.py:56 | `int("2")` is 2 |
| Scenarios.ParseZero | project.py:56 | `int("0")` is 0 |
| Scenarios.RejectFraction | project.py:55-56 | `int("1.5")` raises |
| Scenarios.RejectUnit | project.py:55-56 | `int("12кг")` raises |
| Scenarios.RejectDigitGroups | project.py:55-56 | `int("1 000")` raises |
| Scenarios.RejectSeparator | project.py:55-56 | `int("\x1c100")` raises, although `strip()` removes U+001C |
| Scenarios.NameApple | project.py:54 | `"Яблоко"` is stored as `"яблоко"` |
| Scenarios.HeaderRow | project.py:79-83 | the header row `товар,цена,вес` resolves to columns 0, 1 and 2 |
| Scenarios.SelectPriceList | project.py:34 | of `price1.csv` and `price1.txt` only the first is selected |
| Scenarios.AppleRow | project.py:53-60 | the row `Яблоко,100,2` of `price1.csv` becomes the record `яблоко, 100, 2, price1.csv, 50.0` |
| Scenarios.AppleFile | project.py:41-61 | that file with its header row adds exactly that record |
| Scenarios.LoadExample | project.py:31-67 | loading a directory holding that file and `price1.txt` into an empty machine stores exactly that record |
| Scenarios.ZeroWeightDropsFile | project.py:53-65 | a good row followed by a row of weight 0 adds nothing: the first row's record is discarded too |

## Left out

- File system access (`os.path.exists`, `os.listdir`, `open`) is replaced by the `Ingest.Directory` value. `open` is called with the bare listed name, not joined to the directory path. The model therefore keys the readable tables by that bare name, and which names `open` can read is an input. A path that exists but is not a listable directory makes `os.listdir` (project.py:34, outside the `try`) raise `NotADirectoryError` or `PermissionError`; the model's present directory always has a listing, so that exception is not modelled.
- Decoding and I/O errors raised while opening or reading a file are modelled only as the file being absent from the readable tables, so the file is skipped.
- CSV tokenising (`csv.reader` quoting and delimiters): every file is given as its already-split rows of cells.
- Records.RoundTenths: the unit price is the exact rational `price / weight` rounded to tenths with ties to even. Python divides in binary floating point and then rounds the float, which yields a float, not a count of tenths, and differs from the model in these cases, among others:
  - on an exact tie such as `7 / 20`, the float is not exactly the tie, so `round(7 / 20, 1)` is 0.3 where the model gives 4 tenths;
  - once the price reaches about 2**53 / 20, or the quotient exceeds 2**53, the float quotient is rounded to 53 bits and can fall on the other side of a rounding midpoint, so a quotient that is not a tie can round differently. Examples:
    - price `8000399999978999`, weight `7999999999979`: the quotient is just above 1000.05, which the model rounds to 10001 tenths, while the float quotient rounds to 1000.0;
    - price `2**54 + 1`, weight `2**56`: the quotient is just above 0.25, which the model rounds to 3 tenths, while the float quotient is exactly 0.25 and rounds to 0.2;
    - price `2**53 + 1`, weight `1`: the quotient itself is not representable;
  - a quotient beyond the float range (price `10**400`, weight `1`) raises `OverflowError`, which the `except` at project.py:63 turns into skipping the file; the model keeps that file's records.
- Text.Lower: lowers only ASCII `A`–`Z` and Cyrillic `А`–`Я` and `Ё`; other scripts' case mappings of `str.lower()` are not modelled.
- Text.ParseInt: accepts surrounding white space other than the information separators U+001C to U+001F, which it rejects wherever they stand as `int()` does, then one optional sign and ASCII digits only. Python's `int()` also accepts underscores between digits and non-ASCII decimal digits, and current CPython raises `ValueError` for a token of more than 4300 digits, which would skip the file; the model parses tokens of any length.
- Machine.PriceMachine.LoadPrices: returns the stored records as a value. Python returns the `self.data` list itself, so later loads also change what an earlier call returned. That aliasing is not modelled.
- The warnings printed for empty or failing files, the HTML page text around the exported rows, writing `output.html`, the PrettyTable display, the interactive `main` loop and `KeyboardInterrupt` handling are console and UI code with nothing to prove.
