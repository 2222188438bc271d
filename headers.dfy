/** Header resolution: which column of a price list holds the product name, the
    price and the weight, found from the text of the header row. */
module Headers {
  import opened Wrappers

  /** Header texts accepted for each field; a header must equal one of them exactly
      (no trimming, no case folding). */
  const NameHeaders: seq<string> := ["название", "продукт", "товар", "наименование"]
  const PriceHeaders: seq<string> := ["цена", "розница"]
  const WeightHeaders: seq<string> := ["фасовка", "масса", "вес"]

  /** The three column positions of one file; `None` where no header matched. */
  datatype HeaderMap = HeaderMap(name: Option<nat>, price: Option<nat>, weight: Option<nat>)

  /** `r` is the first position of `headers` whose text is one of `accepted`, or
      `None` when there is no such position. */
  ghost predicate IsFirstMatch(headers: seq<string>, accepted: seq<string>, r: Option<nat>) {
    match r
    case None => forall j :: 0 <= j < |headers| ==> headers[j] !in accepted
    case Some(k) =>
      k < |headers| && headers[k] in accepted
      && forall j :: 0 <= j < k ==> headers[j] !in accepted
  }

  function FirstMatchFrom(headers: seq<string>, accepted: seq<string>, from: nat): (r: Option<nat>)
    requires from <= |headers|
    ensures r.Some? ==> from <= r.value < |headers| && headers[r.value] in accepted
    ensures forall j :: from <= j < (if r.Some? then r.value else |headers|) ==> headers[j] !in accepted
    decreases |headers| - from
  {
    if from == |headers| then None
    else if headers[from] in accepted then Some(from)
    else FirstMatchFrom(headers, accepted, from + 1)
  }

  /** `next((i for i, h in enumerate(headers) if h in accepted), None)`. */
  function FirstMatch(headers: seq<string>, accepted: seq<string>): (r: Option<nat>)
    ensures IsFirstMatch(headers, accepted, r)
  {
    FirstMatchFrom(headers, accepted, 0)
  }

  /** `_search_product_price_weight`: each field resolves to its first matching header. */
  function Resolve(headers: seq<string>): (hm: HeaderMap)
    ensures IsFirstMatch(headers, NameHeaders, hm.name)
    ensures IsFirstMatch(headers, PriceHeaders, hm.price)
    ensures IsFirstMatch(headers, WeightHeaders, hm.weight)
  {
    HeaderMap(FirstMatch(headers, NameHeaders), FirstMatch(headers, PriceHeaders),
              FirstMatch(headers, WeightHeaders))
  }

  /** The first-match description leaves no choice: at most one answer satisfies it. */
  lemma FirstMatchUnique(headers: seq<string>, accepted: seq<string>, a: Option<nat>, b: Option<nat>)
    requires IsFirstMatch(headers, accepted, a) && IsFirstMatch(headers, accepted, b)
    ensures a == b
  {
  }

  /** Headers appended after a resolved column never move it: later duplicates are ignored. */
  lemma FirstMatchIgnoresLater(headers: seq<string>, more: seq<string>, accepted: seq<string>)
    requires FirstMatch(headers, accepted).Some?
    ensures FirstMatch(headers + more, accepted) == FirstMatch(headers, accepted)
  {
    var k := FirstMatch(headers, accepted).value;
    assert (headers + more)[k] == headers[k];
    assert forall j :: 0 <= j < k ==> (headers + more)[j] == headers[j];
    FirstMatchUnique(headers + more, accepted, FirstMatch(headers + more, accepted), Some(k));
  }

  /** A header row that repeats a field keeps the first column for it. */
  lemma DuplicateHeaderIgnored()
    ensures Resolve(["товар", "цена", "вес", "цена"]) == HeaderMap(Some(0), Some(1), Some(2))
  {
    var h: seq<string> := ["товар", "цена", "вес", "цена"];
    assert h[0] in NameHeaders && h[1] in PriceHeaders && h[2] in WeightHeaders;
    FirstMatchUnique(h, NameHeaders, Resolve(h).name, Some(0));
    assert h[0] !in PriceHeaders;
    FirstMatchUnique(h, PriceHeaders, Resolve(h).price, Some(1));
    assert h[0] !in WeightHeaders && h[1] !in WeightHeaders;
    FirstMatchUnique(h, WeightHeaders, Resolve(h).weight, Some(2));
  }

  /** Matching is exact: a capitalised or padded header is not recognised. */
  lemma ExactMatchOnly()
    ensures Resolve(["Товар", " цена", "вес"]) == HeaderMap(None, None, Some(2))
  {
    var h: seq<string> := ["Товар", " цена", "вес"];
    assert h[0] != NameHeaders[2] && h[1] != PriceHeaders[0];
    assert h[0] !in NameHeaders && h[1] !in NameHeaders && h[2] !in NameHeaders;
    FirstMatchUnique(h, NameHeaders, Resolve(h).name, None);
    assert h[0] !in PriceHeaders && h[1] !in PriceHeaders && h[2] !in PriceHeaders;
    FirstMatchUnique(h, PriceHeaders, Resolve(h).price, None);
    assert h[0] !in WeightHeaders && h[1] !in WeightHeaders && h[2] in WeightHeaders;
    FirstMatchUnique(h, WeightHeaders, Resolve(h).weight, Some(2));
  }
}
