/** Worked examples: a one-row price list loaded end to end, and a file dropped
    because one of its rows has a zero weight. */
module Scenarios {
  import opened Wrappers
  import opened Text
  import opened Headers
  import opened Records
  import opened Ingest

  // The digit strings below are parameters pinned by `requires` rather than
  // literals in the `ensures`: a literal argument lets the verifier unfold
  // `DigitsValue` on it all at once, which is far more costly than one step each.

  lemma DigitsOne(o: string)
    requires o == "1"
    ensures AllDigits(o) && DigitsValue(o) == 1
  {
    assert o[..0] == "";
  }

  lemma DigitsTen(t: string)
    requires t == "10"
    ensures AllDigits(t) && DigitsValue(t) == 10
  {
    DigitsOne(t[..1]);
  }

  lemma DigitsHundred(h: string)
    requires h == "100"
    ensures AllDigits(h) && DigitsValue(h) == 100
  {
    DigitsTen(h[..2]);
  }

  lemma ParseHundred()
    ensures ParseInt("100") == Some(100)
  {
    DigitsHundred("100");
    ParseDigits("100");
  }

  lemma ParseTwo()
    ensures ParseInt("2") == Some(2)
  {
    ParseDigits("2");
    assert "2"[..0] == "";
  }

  lemma ParseZero()
    ensures ParseInt("0") == Some(0)
  {
    ParseDigits("0");
    assert "0"[..0] == "";
  }

  /** A decimal fraction is not an integer: `int("1.5")` raises. */
  lemma RejectFraction()
    ensures ParseInt("1.5").None?
  {
    ParseIntRejectsChar("1.5", 1);
  }

  /** A weight written with its unit is not an integer: `int("12кг")` raises. */
  lemma RejectUnit()
    ensures ParseInt("12кг").None?
  {
    ParseIntRejectsChar("12кг", 2);
  }

  /** A price with a digit-group space is not an integer: `int("1 000")` raises. */
  lemma RejectDigitGroups()
    ensures ParseInt("1 000").None?
  {
    ParseIntRejectsInnerSpace("1 000", 0, 1, 2);
  }

  /** An information separator before the digits is not skipped: `int("\x1c100")`
      raises, although `strip()` would remove it. */
  lemma RejectSeparator()
    ensures ParseInt("\U{001C}100").None?
  {
    assert IsSeparator("\U{001C}100"[0]);
  }

  /** A capitalised Cyrillic name is stored in lower case. */
  lemma NameApple()
    ensures Strip(Lower("Яблоко")) == "яблоко"
  {
    var u, l := "Яблоко", "яблоко";
    assert LowerChar(u[0]) == l[0];
    forall i | 1 <= i < |u| ensures LowerChar(u[i]) == l[i] {
      assert u[i] == l[i] && !IsUpper(u[i]);
    }
    assert Lower(u) == l;
    StripStripped(l);
  }

  /** The usual header row resolves the name, price and weight to columns 0, 1, 2. */
  lemma HeaderRow()
    ensures Resolve(["товар", "цена", "вес"]) == HeaderMap(Some(0), Some(1), Some(2))
  {
    var h: seq<string> := ["товар", "цена", "вес"];
    assert h[0] in NameHeaders && h[1] in PriceHeaders && h[2] in WeightHeaders;
    FirstMatchUnique(h, NameHeaders, Resolve(h).name, Some(0));
    assert h[0] !in PriceHeaders;
    FirstMatchUnique(h, PriceHeaders, Resolve(h).price, Some(1));
    assert h[0] !in WeightHeaders && h[1] !in WeightHeaders;
    FirstMatchUnique(h, WeightHeaders, Resolve(h).weight, Some(2));
  }

  /** A `.csv` name containing `price` is selected; the same name ending `.txt` is not. */
  lemma SelectPriceList()
    ensures PriceFiles(["price1.csv", "price1.txt"]) == ["price1.csv"]
  {
    ContainsIff("price1.csv", "price");
    assert OccursAt("price1.csv", "price", 0);
    assert !EndsWith("price1.txt", ".csv");
    assert EndsWith("price1.csv", ".csv");
  }

  /** Яблоко at 100 for a weight of 2 costs 50.0 per unit: 500 tenths. */
  lemma AppleRow()
    ensures NormalizeRow(["Яблоко", "100", "2"], HeaderMap(Some(0), Some(1), Some(2)), "price1.csv")
      == Success(Record("яблоко", 100, 2, "price1.csv", 500))
  {
    var row: seq<string> := ["Яблоко", "100", "2"];
    var hm := HeaderMap(Some(0), Some(1), Some(2));
    ParseHundred();
    ParseTwo();
    NameApple();
    CellSucceeds(row, hm.name);
    IntCellSucceeds(row, hm.price);
    IntCellSucceeds(row, hm.weight);
    NormalizeRowSucceeds(row, hm, "price1.csv");
    RoundTenthsUnique(100, 2, 500);
  }

  lemma AppleFile(dir: Directory, rec: Record)
    requires "price1.csv" in dir.readable
    requires dir.readable["price1.csv"] == [["товар", "цена", "вес"], ["Яблоко", "100", "2"]]
    requires rec == Record("яблоко", 100, 2, "price1.csv", 500)
    ensures FileRecords("price1.csv", dir) == [rec]
  {
    var table := dir.readable["price1.csv"];
    HeaderRow();
    AppleRow();
    NormalizeRowsSingle(table[1..], Resolve(table[0]), "price1.csv", rec);
  }

  /** Loading a directory holding one price list and one other file into an empty
      machine stores the one record of the price list. */
  lemma LoadExample(dir: Directory)
    requires dir == Directory(true, ["price1.csv", "price1.txt"],
                              map["price1.csv" := [["товар", "цена", "вес"], ["Яблоко", "100", "2"]]])
    ensures Load([], dir) == Success([Record("яблоко", 100, 2, "price1.csv", 500)])
  {
    SelectPriceList();
    var rec := Record("яблоко", 100, 2, "price1.csv", 500);
    AppleFile(dir, rec);
    LoadSingleFile([], dir, "price1.csv");
    assert [] + [rec] == [rec];
  }

  /** A good row followed by a row with weight 0 adds nothing: the division by zero
      on the second row discards the first row's record as well. */
  lemma ZeroWeightDropsFile(dir: Directory)
    requires "price2.csv" in dir.readable
    requires dir.readable["price2.csv"] ==
      [["товар", "цена", "вес"], ["Яблоко", "100", "2"], ["Груша", "50", "0"]]
    ensures FileRecords("price2.csv", dir) == []
  {
    var table := dir.readable["price2.csv"];
    HeaderRow();
    assert table[2][2] == "0";
    ParseZero();
    BadRowSkipsFile("price2.csv", dir, 2);
  }
}
