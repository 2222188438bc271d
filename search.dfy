/** Search over the loaded records: the records whose name contains the query,
    ordered by unit price, records with equal unit price kept in stored order. */
module Search {
  import opened Text
  import opened Records

  /** `[row for row in data if text in row[0]]`. */
  function Matching(data: seq<Record>, text: string): seq<Record> {
    if data == [] then []
    else (if Contains(data[0].name, text) then [data[0]] else []) + Matching(data[1..], text)
  }

  /** The filter keeps every record whose name contains the query, as many times as
      it is stored, and no other record. */
  lemma {:induction false} MatchingCount(data: seq<Record>, text: string)
    ensures forall x :: multiset(Matching(data, text))[x] == if Contains(x.name, text) then multiset(data)[x] else 0
  {
    if data != [] {
      MatchingCount(data[1..], text);
      assert data == [data[0]] + data[1..];
    }
  }

  /** The records of `s` whose unit price is `k`, in their order in `s`. */
  function WithUnit(s: seq<Record>, k: int): seq<Record> {
    if s == [] then []
    else (if s[0].unitTenths == k then [s[0]] else []) + WithUnit(s[1..], k)
  }

  predicate SortedByUnit(s: seq<Record>) {
    forall i, j :: 0 <= i < j < |s| ==> s[i].unitTenths <= s[j].unitTenths
  }

  /** Puts `x` before the first record whose unit price is not below its own. */
  function Insert(x: Record, s: seq<Record>): seq<Record> {
    if s == [] then [x]
    else if x.unitTenths <= s[0].unitTenths then [x] + s
    else [s[0]] + Insert(x, s[1..])
  }

  /** `sorted(s, key=lambda x: x[-1])`, as a stable insertion sort. */
  function SortByUnit(s: seq<Record>): (r: seq<Record>)
    ensures SortedByUnit(r)
    ensures multiset(r) == multiset(s)
  {
    if s == [] then []
    else
      var t := SortByUnit(s[1..]);
      InsertSorted(s[0], t);
      assert s == [s[0]] + s[1..];
      Insert(s[0], t)
  }

  lemma SortedCons(h: Record, s: seq<Record>)
    requires SortedByUnit(s)
    requires forall j :: 0 <= j < |s| ==> h.unitTenths <= s[j].unitTenths
    ensures SortedByUnit([h] + s)
  {
    var t := [h] + s;
    forall i, j | 0 <= i < j < |t| ensures t[i].unitTenths <= t[j].unitTenths {
      if i > 0 {
        assert t[i] == s[i - 1];
      }
      assert t[j] == s[j - 1];
    }
  }

  lemma {:induction false} InsertSorted(x: Record, s: seq<Record>)
    requires SortedByUnit(s)
    ensures SortedByUnit(Insert(x, s))
    ensures multiset(Insert(x, s)) == multiset(s) + multiset{x}
  {
    if s == [] {
    } else if x.unitTenths <= s[0].unitTenths {
      SortedCons(x, s);
    } else {
      assert s == [s[0]] + s[1..];
      var r := Insert(x, s[1..]);
      InsertSorted(x, s[1..]);
      forall j | 0 <= j < |r| ensures s[0].unitTenths <= r[j].unitTenths {
        assert r[j] in multiset(r);
        if r[j] != x {
          assert r[j] in multiset(s[1..]);
        }
      }
      SortedCons(s[0], r);
    }
  }

  lemma {:induction false} WithUnitAppend(a: seq<Record>, b: seq<Record>, k: int)
    ensures WithUnit(a + b, k) == WithUnit(a, k) + WithUnit(b, k)
  {
    if a != [] {
      assert (a + b)[0] == a[0];
      assert (a + b)[1..] == a[1..] + b;
      WithUnitAppend(a[1..], b, k);
      var h := if a[0].unitTenths == k then [a[0]] else [];
      assert h + (WithUnit(a[1..], k) + WithUnit(b, k)) == (h + WithUnit(a[1..], k)) + WithUnit(b, k);
    } else {
      assert a + b == b;
    }
  }

  /** Inserting `x` puts it ahead of every record with the same unit price. */
  lemma {:induction false} WithUnitInsert(x: Record, s: seq<Record>, k: int)
    ensures WithUnit(Insert(x, s), k) == (if x.unitTenths == k then [x] else []) + WithUnit(s, k)
  {
    if s != [] && x.unitTenths > s[0].unitTenths {
      WithUnitInsert(x, s[1..], k);
    }
  }

  /** The sort is stable: for every unit price, the records carrying it appear in
      the sorted sequence in the order they had before. */
  lemma {:induction false} SortStable(s: seq<Record>, k: int)
    ensures WithUnit(SortByUnit(s), k) == WithUnit(s, k)
  {
    if s != [] {
      SortStable(s[1..], k);
      WithUnitInsert(s[0], SortByUnit(s[1..]), k);
    }
  }

  lemma {:induction false} MatchingAppend(a: seq<Record>, b: seq<Record>, text: string)
    ensures Matching(a + b, text) == Matching(a, text) + Matching(b, text)
  {
    if a != [] {
      assert (a + b)[0] == a[0];
      assert (a + b)[1..] == a[1..] + b;
      MatchingAppend(a[1..], b, text);
      var h := if Contains(a[0].name, text) then [a[0]] else [];
      assert h + (Matching(a[1..], text) + Matching(b, text)) == (h + Matching(a[1..], text)) + Matching(b, text);
    } else {
      assert a + b == b;
    }
  }

  /** Filtering by name and by unit price can be done in either order. */
  lemma {:induction false} MatchingWithUnit(s: seq<Record>, text: string, k: int)
    ensures WithUnit(Matching(s, text), k) == Matching(WithUnit(s, k), text)
  {
    if s != [] {
      var x := s[0];
      var hm := if Contains(x.name, text) then [x] else [];
      var hw := if x.unitTenths == k then [x] else [];
      assert Matching(s, text) == hm + Matching(s[1..], text);
      assert WithUnit(s, k) == hw + WithUnit(s[1..], k);
      WithUnitAppend(hm, Matching(s[1..], text), k);
      MatchingAppend(hw, WithUnit(s[1..], k), text);
      MatchingWithUnit(s[1..], text, k);
      assert WithUnit(hm, k) == Matching(hw, text) by {
        if hm != [] { assert hm[1..] == []; }
        if hw != [] { assert hw[1..] == []; }
      }
    }
  }

  /** `find_text(text)` on the stored records `data`. */
  function Search(data: seq<Record>, text: string): (r: seq<Record>)
    ensures SortedByUnit(r)
    ensures forall x :: multiset(r)[x] == if Contains(x.name, text) then multiset(data)[x] else 0
    ensures forall k :: WithUnit(r, k) == Matching(WithUnit(data, k), text)
  {
    var m := Matching(data, text);
    MatchingCount(data, text);
    SortStableMatching(data, text);
    SortByUnit(m)
  }

  lemma SortStableMatching(data: seq<Record>, text: string)
    ensures forall k :: WithUnit(SortByUnit(Matching(data, text)), k) == Matching(WithUnit(data, k), text)
  {
    forall k ensures WithUnit(SortByUnit(Matching(data, text)), k) == Matching(WithUnit(data, k), text) {
      SortStable(Matching(data, text), k);
      MatchingWithUnit(data, text, k);
    }
  }

  /** Every record of the result contains the query in its name. */
  lemma SearchMatches(data: seq<Record>, text: string, x: Record)
    requires x in Search(data, text)
    ensures x in data && Contains(x.name, text)
  {
    assert multiset(Search(data, text))[x] > 0;
  }

  /** Two sequences sorted by unit price that agree on the records of every unit
      price are equal: the sorted, stable order is unique. */
  lemma {:induction false} SortedUnique(a: seq<Record>, b: seq<Record>)
    requires SortedByUnit(a) && SortedByUnit(b)
    requires forall k :: WithUnit(a, k) == WithUnit(b, k)
    ensures a == b
    decreases |a|
  {
    if a == [] && b == [] {
    } else if a == [] || b == [] {
      WithUnitHead(if a != [] then a else b);
      assert false;
    } else {
      var ka, kb := a[0].unitTenths, b[0].unitTenths;
      assert WithUnit(a, ka) == [a[0]] + WithUnit(a[1..], ka);
      WithUnitBounded(b, ka);
      WithUnitBounded(a, kb);
      assert WithUnit(b, kb) == [b[0]] + WithUnit(b[1..], kb);
      assert ka == kb;
      assert a[0] == b[0];
      forall k ensures WithUnit(a[1..], k) == WithUnit(b[1..], k) {
        var h := if a[0].unitTenths == k then [a[0]] else [];
        assert WithUnit(a, k) == h + WithUnit(a[1..], k);
        assert WithUnit(b, k) == h + WithUnit(b[1..], k);
        assert WithUnit(a[1..], k) == WithUnit(a, k)[|h|..];
        assert WithUnit(b[1..], k) == WithUnit(b, k)[|h|..];
      }
      SortedUnique(a[1..], b[1..]);
    }
  }

  lemma WithUnitHead(s: seq<Record>)
    requires s != []
    ensures WithUnit(s, s[0].unitTenths) != []
  {
  }

  /** In a sequence sorted by unit price, a unit price below the first one is carried
      by no record, and the first record of a unit price equal to the first one is
      the head. */
  lemma {:induction false} WithUnitBounded(s: seq<Record>, k: int)
    requires SortedByUnit(s) && s != []
    requires WithUnit(s, k) != []
    ensures s[0].unitTenths <= k
    ensures s[0].unitTenths == k ==> WithUnit(s, k)[0] == s[0]
  {
    if s[0].unitTenths != k {
      assert WithUnit(s, k) == WithUnit(s[1..], k);
      if |s| > 1 {
        WithUnitBounded(s[1..], k);
      }
    }
  }

  /** The result of `find_text` is the only sequence that is sorted by unit price and
      holds, for every unit price, exactly the matching records of that price in
      stored order. */
  lemma SearchUnique(data: seq<Record>, text: string, r: seq<Record>)
    requires SortedByUnit(r)
    requires forall k :: WithUnit(r, k) == Matching(WithUnit(data, k), text)
    ensures r == Search(data, text)
  {
    SortedUnique(r, Search(data, text));
  }

  /** Every record contains the empty query. */
  lemma {:induction false} MatchingEmpty(data: seq<Record>)
    ensures Matching(data, "") == data
  {
    if data != [] {
      ContainsEmpty(data[0].name);
      MatchingEmpty(data[1..]);
    }
  }

  /** Filtering records that all contain the query keeps them all, in order. */
  lemma {:induction false} MatchingAll(data: seq<Record>, text: string)
    requires forall x :: x in data ==> Contains(x.name, text)
    ensures Matching(data, text) == data
  {
    if data != [] {
      MatchingAll(data[1..], text);
    }
  }

  lemma {:induction false} WithUnitIn(s: seq<Record>, k: int, x: Record)
    requires x in WithUnit(s, k)
    ensures x in s && x.unitTenths == k
  {
    var h := if s[0].unitTenths == k then [s[0]] else [];
    assert WithUnit(s, k) == h + WithUnit(s[1..], k);
    if x !in h {
      WithUnitIn(s[1..], k, x);
    }
  }

  /** The empty query returns every stored record, sorted stably by unit price. */
  lemma SearchEmptyQuery(data: seq<Record>)
    ensures multiset(Search(data, "")) == multiset(data)
    ensures forall k :: WithUnit(Search(data, ""), k) == WithUnit(data, k)
  {
    MatchingEmpty(data);
    forall k ensures Matching(WithUnit(data, k), "") == WithUnit(data, k) {
      MatchingEmpty(WithUnit(data, k));
    }
  }

  /** Searching the result of a search again with the same query returns it unchanged. */
  lemma SearchIdempotent(data: seq<Record>, text: string)
    ensures Search(Search(data, text), text) == Search(data, text)
  {
    var r := Search(data, text);
    forall k ensures WithUnit(r, k) == Matching(WithUnit(r, k), text) {
      forall x | x in WithUnit(r, k) ensures Contains(x.name, text) {
        WithUnitIn(r, k, x);
        SearchMatches(data, text, x);
      }
      MatchingAll(WithUnit(r, k), text);
    }
    SearchUnique(r, text, r);
  }
}
