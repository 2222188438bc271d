/** The string primitives the price machine relies on: `str.lower`, `str.strip`,
    the `in` substring test, `str.endswith` and `int()` on a decimal token. */
module Text {
  import opened Wrappers

  // ---------------------------------------------------------------- lower()

  /** Upper-case letters of the two alphabets the price lists use: Latin A-Z and
      Cyrillic А-Я plus Ё. */
  predicate IsUpper(c: char) {
    ('A' <= c <= 'Z') || ('\U{0410}' <= c <= '\U{042F}') || c == '\U{0401}'
  }

  function LowerChar(c: char): (r: char)
    ensures !IsUpper(r)
    ensures !IsUpper(c) ==> r == c
  {
    if 'A' <= c <= 'Z' then (c as int + 32) as char
    else if '\U{0410}' <= c <= '\U{042F}' then (c as int + 32) as char
    else if c == '\U{0401}' then '\U{0451}'
    else c
  }

  /** `s.lower()`, character by character. */
  function Lower(s: string): (r: string)
    ensures |r| == |s|
    ensures forall i :: 0 <= i < |s| ==> r[i] == LowerChar(s[i])
  {
    seq(|s|, i requires 0 <= i < |s| => LowerChar(s[i]))
  }

  predicate IsLowered(s: string) {
    forall i :: 0 <= i < |s| ==> !IsUpper(s[i])
  }

  lemma LowerIsLowered(s: string)
    ensures IsLowered(Lower(s))
    ensures Lower(Lower(s)) == Lower(s)
  {
  }

  // ---------------------------------------------------------------- strip()

  /** The characters `str.isspace()` holds of, which `str.strip()` removes. */
  predicate IsSpace(c: char) {
    ('\U{0009}' <= c <= '\U{000D}') || ('\U{001C}' <= c <= '\U{0020}')
    || c == '\U{0085}' || c == '\U{00A0}' || c == '\U{1680}'
    || ('\U{2000}' <= c <= '\U{200A}') || c == '\U{2028}' || c == '\U{2029}'
    || c == '\U{202F}' || c == '\U{205F}' || c == '\U{3000}'
  }

  /** A string with no white space at either end: what `strip` leaves. */
  predicate IsStripped(s: string) {
    s == [] || (!IsSpace(s[0]) && !IsSpace(s[|s| - 1]))
  }

  /** `s.lstrip()`: the suffix of `s` left once its leading white space is cut off. */
  function TrimStart(s: string): (r: string)
    ensures |r| <= |s| && r == s[|s| - |r|..]
    ensures r != [] ==> !IsSpace(r[0])
  {
    if s != [] && IsSpace(s[0]) then TrimStart(s[1..]) else s
  }

  /** `s.rstrip()`: the prefix of `s` left once its trailing white space is cut off. */
  function TrimEnd(s: string): (r: string)
    ensures |r| <= |s| && r == s[..|r|]
    ensures r != [] ==> !IsSpace(r[|r| - 1])
  {
    if s != [] && IsSpace(s[|s| - 1]) then TrimEnd(s[..|s| - 1]) else s
  }

  /** `s.strip()`: `s` without the white space at either end. */
  function Strip(s: string): (r: string)
    ensures IsStripped(r)
    ensures |r| <= |s|
  {
    var t := TrimStart(s);
    var r := TrimEnd(t);
    assert r != [] ==> r[0] == t[0];
    r
  }

  /** `TrimStart` cuts off only white space: everything before the suffix it keeps. */
  lemma {:induction false} TrimStartCut(s: string) returns (i: nat)
    ensures i <= |s| && TrimStart(s) == s[i..]
    ensures forall k :: 0 <= k < i ==> IsSpace(s[k])
  {
    if s != [] && IsSpace(s[0]) {
      var m := TrimStartCut(s[1..]);
      i := m + 1;
      assert s[1..][m..] == s[i..];
      forall k | 1 <= k < i ensures IsSpace(s[k]) {
        assert s[k] == s[1..][k - 1];
      }
    } else {
      i := 0;
    }
  }

  /** `TrimEnd` cuts off only white space: everything after the prefix it keeps. */
  lemma {:induction false} TrimEndCut(t: string) returns (n: nat)
    ensures n <= |t| && TrimEnd(t) == t[..n]
    ensures forall k :: n <= k < |t| ==> IsSpace(t[k])
  {
    if t != [] && IsSpace(t[|t| - 1]) {
      n := TrimEndCut(t[..|t| - 1]);
      assert t[..|t| - 1][..n] == t[..n];
      forall k | n <= k < |t| - 1 ensures IsSpace(t[k]) {
        assert t[k] == t[..|t| - 1][k];
      }
    } else {
      n := |t|;
    }
  }

  /** What `Strip` leaves is the slice `s[i..j]` of its input, and everything cut
      off on either side is white space. */
  lemma StripSlice(s: string) returns (i: nat, j: nat)
    ensures i <= j <= |s| && Strip(s) == s[i..j]
    ensures forall k :: 0 <= k < i ==> IsSpace(s[k])
    ensures forall k :: j <= k < |s| ==> IsSpace(s[k])
  {
    var t := TrimStart(s);
    i := TrimStartCut(s);
    var n := TrimEndCut(t);
    j := i + n;
    SliceOfSuffix(s, i, n);
    forall k | j <= k < |s| ensures IsSpace(s[k]) {
      assert s[k] == t[k - i];
    }
  }

  lemma SliceOfSuffix<T>(s: seq<T>, i: nat, n: nat)
    requires i + n <= |s|
    ensures s[i..][..n] == s[i..i + n] && s[i..][n..] == s[i + n..]
  {
  }

  /** Stripping a string that has no white space at its ends changes nothing. */
  lemma StripStripped(s: string)
    requires IsStripped(s)
    ensures Strip(s) == s
  {
  }

  lemma LowerOfLowered(s: string)
    requires IsLowered(s)
    ensures Lower(s) == s
  {
  }

  lemma LoweredSlice(s: string, i: nat, j: nat)
    requires IsLowered(s) && i <= j <= |s|
    ensures IsLowered(s[i..j])
  {
    assert forall k :: 0 <= k < j - i ==> s[i..j][k] == s[i + k];
  }

  /** The name key of a record, `cell.lower().strip()`, has no upper-case letter and
      no surrounding white space. */
  lemma NormalizedName(cell: string)
    ensures IsLowered(Strip(Lower(cell)))
    ensures IsStripped(Strip(Lower(cell)))
  {
    var l := Lower(cell);
    LowerIsLowered(cell);
    var i, j := StripSlice(l);
    LoweredSlice(l, i, j);
  }

  /** Normalising a name key again changes nothing. */
  lemma NormalizedNameStable(cell: string)
    ensures Strip(Lower(Strip(Lower(cell)))) == Strip(Lower(cell))
  {
    var n := Strip(Lower(cell));
    NormalizedName(cell);
    LowerOfLowered(n);
    StripStripped(n);
  }

  // ---------------------------------------------------------------- `in`, endswith

  /** Python's `sub in s` on strings. */
  predicate Contains(s: string, sub: string)
    decreases |s|
  {
    sub <= s || (s != [] && Contains(s[1..], sub))
  }

  /** `sub` occurs in `s` starting at position `i`. */
  predicate OccursAt(s: string, sub: string, i: int) {
    0 <= i <= |s| - |sub| && s[i..i + |sub|] == sub
  }

  /** `Contains` holds exactly when `sub` occurs in `s` at some position. */
  lemma ContainsIff(s: string, sub: string)
    ensures Contains(s, sub) <==> exists i :: OccursAt(s, sub, i)
  {
    if Contains(s, sub) {
      ContainsOccurs(s, sub);
    }
    if exists i :: OccursAt(s, sub, i) {
      var i :| OccursAt(s, sub, i);
      OccursContains(s, sub, i);
    }
  }

  lemma {:induction false} ContainsOccurs(s: string, sub: string)
    requires Contains(s, sub)
    ensures exists i :: OccursAt(s, sub, i)
    decreases |s|
  {
    if sub <= s {
      assert OccursAt(s, sub, 0);
    } else {
      ContainsOccurs(s[1..], sub);
      var j :| OccursAt(s[1..], sub, j);
      assert s[1..][j..j + |sub|] == s[j + 1..j + 1 + |sub|];
      assert OccursAt(s, sub, j + 1);
    }
  }

  lemma {:induction false} OccursContains(s: string, sub: string, i: int)
    requires OccursAt(s, sub, i)
    ensures Contains(s, sub)
    decreases i
  {
    if i == 0 {
      assert s[..|sub|] == sub;
    } else {
      assert s[1..][i - 1..i - 1 + |sub|] == s[i..i + |sub|];
      OccursContains(s[1..], sub, i - 1);
    }
  }

  /** Every string contains the empty query. */
  lemma {:induction false} ContainsEmpty(s: string)
    ensures Contains(s, "")
  {
  }

  /** `s.endswith(suffix)`. */
  predicate EndsWith(s: string, suffix: string) {
    |suffix| <= |s| && s[|s| - |suffix|..] == suffix
  }

  // ---------------------------------------------------------------- int()

  predicate IsDigit(c: char) { '0' <= c <= '9' }

  predicate AllDigits(s: string) {
    forall i :: 0 <= i < |s| ==> IsDigit(s[i])
  }

  /** The value of a string of decimal digits, most significant first. */
  function DigitsValue(s: string): nat
    requires AllDigits(s)
  {
    if s == [] then 0
    else 10 * DigitsValue(s[..|s| - 1]) + (s[|s| - 1] as int - '0' as int)
  }

  /** The shape of a base-10 integer literal once stripped: an optional leading
      sign, then only digits, and at least one of them. */
  predicate IsIntLiteral(t: string) {
    t != [] && IsDigit(t[|t| - 1])
    && forall i :: 0 <= i < |t| ==> IsDigit(t[i]) || (i == 0 && (t[i] == '+' || t[i] == '-'))
  }

  /** The information separators U+001C to U+001F: white space for `str.isspace`
      and `strip()`, but not for `int()`. */
  predicate IsSeparator(c: char) { '\U{001C}' <= c <= '\U{001F}' }

  predicate NoSeparator(s: string) {
    forall i :: 0 <= i < |s| ==> !IsSeparator(s[i])
  }

  /** `int(token)` in base 10: white space around the token is ignored, then an
      optional sign and at least one digit; anything else is a `ValueError` (`None`).
      `int()` keeps every ASCII character as it is and skips only ASCII white space
      around the digits, turning other white space into a blank first, so an
      information separator raises wherever it stands: outside the digits it is not
      skipped, inside them it is no digit. */
  function ParseInt(token: string): Option<int> {
    if NoSeparator(token) then ParseLiteral(Strip(token)) else None
  }

  /** `int()` accepts a token exactly when it holds no information separator and,
      once stripped, is an optional sign followed by one or more digits. */
  lemma ParseIntAccepts(token: string)
    ensures ParseInt(token).Some? <==> NoSeparator(token) && IsIntLiteral(Strip(token))
  {
  }

  /** The value of a stripped token: an optional sign and at least one digit. */
  function ParseLiteral(t: string): (r: Option<int>)
    ensures r.Some? <==> IsIntLiteral(t)
  {
    if t == [] then None
    else if t[0] == '-' || t[0] == '+' then
      var body := t[1..];
      if body != [] && AllDigits(body) then
        var v: int := DigitsValue(body);
        Some(if t[0] == '-' then -v else v)
      else None
    else if AllDigits(t) then Some(DigitsValue(t))
    else None
  }

  /** The decimal spelling of a natural number, as `str(n)` writes it. */
  function NatToString(n: nat): (r: string)
    ensures r != [] && AllDigits(r)
  {
    var d := ['0' + (n % 10) as char];
    if n < 10 then d else NatToString(n / 10) + d
  }

  /** `str(i)` for an integer: a minus sign before the digits of a negative one. */
  function IntToString(i: int): string {
    if i < 0 then "-" + NatToString(-i) else NatToString(i)
  }

  lemma {:induction false} NatToStringValue(n: nat)
    ensures DigitsValue(NatToString(n)) == n
  {
    var s := NatToString(n);
    if n >= 10 {
      NatToStringValue(n / 10);
      assert s[..|s| - 1] == NatToString(n / 10);
    }
  }

  /** A non-empty string of digits is read by `int()` as its decimal value. */
  lemma ParseDigits(s: string)
    requires s != [] && AllDigits(s)
    ensures ParseInt(s) == Some(DigitsValue(s))
  {
    assert !IsSpace(s[0]) && !IsSpace(s[|s| - 1]);
    StripStripped(s);
    assert NoSeparator(s) by {
      forall k | 0 <= k < |s| ensures !IsSeparator(s[k]) {
        assert IsDigit(s[k]);
      }
    }
  }

  /** A character of the token that is neither white space, nor a digit, nor a sign
      (a decimal point, a unit, a currency sign) makes `int()` raise. */
  lemma ParseIntRejectsChar(token: string, k: nat)
    requires k < |token| && !IsSpace(token[k]) && !IsDigit(token[k])
    requires token[k] != '+' && token[k] != '-'
    ensures ParseInt(token).None?
  {
    var i, j := StripKept(token);
    assert Strip(token)[k - i] == token[k];
    ParseIntAccepts(token);
  }

  /** White space between two other characters, as in a digit group `1 000`, is not
      stripped and makes `int()` raise. */
  lemma ParseIntRejectsInnerSpace(token: string, a: nat, k: nat, b: nat)
    requires a < k < b < |token|
    requires !IsSpace(token[a]) && IsSpace(token[k]) && !IsSpace(token[b])
    ensures ParseInt(token).None?
  {
    var i, j := StripKept(token);
    assert Strip(token)[k - i] == token[k];
    ParseIntAccepts(token);
  }

  /** Every character that is not white space lies inside the part `Strip` keeps. */
  lemma StripKept(s: string) returns (i: nat, j: nat)
    ensures i <= j <= |s| && Strip(s) == s[i..j]
    ensures forall k :: 0 <= k < |s| && !IsSpace(s[k]) ==> i <= k < j
  {
    i, j := StripSlice(s);
  }

  /** White space around a token other than an information separator does not
      change what `int()` reads: `int(" 12 ") == int("12")`. */
  lemma ParseIntPadded(token: string)
    requires NoSeparator(token)
    ensures ParseInt(token) == ParseInt(Strip(token))
  {
    var t := Strip(token);
    var i, j := StripSlice(token);
    NoSeparatorSlice(token, i, j);
    StripStripped(t);
  }

  lemma NoSeparatorSlice(s: string, i: nat, j: nat)
    requires i <= j <= |s| && NoSeparator(s)
    ensures NoSeparator(s[i..j])
  {
    assert forall k :: 0 <= k < j - i ==> s[i..j][k] == s[i + k];
  }

  /** A `+` before a non-empty string of digits is read as the digits' value:
      `int("+5") == 5`. */
  lemma ParsePlus(d: string)
    requires d != [] && AllDigits(d)
    ensures ParseInt(['+'] + d) == Some(DigitsValue(d))
  {
    var t := ['+'] + d;
    assert t[1..] == d;
    SignedStripped(t, d);
    ParseIntOfStripped(t);
    SignedLiteral(t, d);
  }

  /** A `-` before a non-empty string of digits, leading zeros included, is read as
      the digits' value negated: `int("-007") == -7`. */
  lemma ParseMinus(d: string)
    requires d != [] && AllDigits(d)
    ensures ParseInt(['-'] + d) == Some(-(DigitsValue(d) as int))
  {
    var t := ['-'] + d;
    assert t[1..] == d;
    SignedStripped(t, d);
    ParseIntOfStripped(t);
    SignedLiteral(t, d);
  }

  lemma SignedLiteral(t: string, d: string)
    requires d != [] && AllDigits(d) && |t| == |d| + 1 && t[1..] == d
    requires t[0] == '+' || t[0] == '-'
    ensures ParseLiteral(t) == Some(if t[0] == '-' then -(DigitsValue(d) as int) else DigitsValue(d))
  {
  }

  lemma ParseIntOfStripped(t: string)
    requires NoSeparator(t) && Strip(t) == t
    ensures ParseInt(t) == ParseLiteral(t)
  {
  }

  /** A sign followed by digits has nothing to strip and no information separator. */
  lemma SignedStripped(t: string, d: string)
    requires d != [] && AllDigits(d) && |t| == |d| + 1 && t[1..] == d
    requires t[0] == '+' || t[0] == '-'
    ensures NoSeparator(t) && Strip(t) == t
  {
    assert t[|t| - 1] == d[|d| - 1];
    StripStripped(t);
    SignedNoSeparator(t, d);
  }

  lemma SignedNoSeparator(t: string, d: string)
    requires AllDigits(d) && |t| == |d| + 1 && t[1..] == d
    requires t[0] == '+' || t[0] == '-'
    ensures NoSeparator(t)
  {
    forall k | 1 <= k < |t| ensures !IsSeparator(t[k]) {
      assert t[k] == d[k - 1];
    }
  }

  /** `int(str(i)) == i`: the parser reads back every integer the program prints. */
  lemma ParseIntRoundTrip(i: int)
    ensures ParseInt(IntToString(i)) == Some(i)
  {
    var s := IntToString(i);
    var digits := NatToString(if i < 0 then -i else i);
    NatToStringValue(if i < 0 then -i else i);
    assert IsStripped(s);
    StripStripped(s);
    if i < 0 {
      assert s[1..] == digits;
    } else {
      assert !IsSpace(s[0]) && s[0] != '-' && s[0] != '+';
    }
  }
}
