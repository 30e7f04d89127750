/**
 * The pieces of Go's `strings` and `strconv` packages the notifier relies on:
 * prefix tests, ASCII case mapping, `strings.Title` and `strconv.Atoi` on a
 * 64-bit `int`.
 */
module Text {
  import opened Options

  // ---------------------------------------------------------------- prefixes

  /** `strings.HasPrefix(s, p)`. */
  predicate HasPrefix(s: string, p: string) {
    |p| <= |s| && s[..|p|] == p
  }

  /** `strings.TrimPrefix(s, p)`: drops `p` when `s` starts with it. */
  function TrimPrefix(s: string, p: string): (r: string)
    ensures HasPrefix(s, p) ==> p + r == s
    ensures !HasPrefix(s, p) ==> r == s
  {
    if HasPrefix(s, p) then s[|p|..] else s
  }

  /** Trimming a prefix undoes prepending it. */
  lemma TrimPrefixOfConcat(p: string, t: string)
    ensures TrimPrefix(p + t, p) == t
  {
  }

  /** A string with a non-empty prefix starts with that prefix's first character. */
  lemma PrefixHead(s: string, p: string)
    requires HasPrefix(s, p) && |p| > 0
    ensures |s| > 0 && s[0] == p[0]
  {
  }

  /** A string that differs from a prefix at some position of the prefix does not start with it. */
  lemma NotPrefix(s: string, p: string, k: nat)
    requires k < |p| && (k < |s| ==> s[k] != p[k])
    ensures !HasPrefix(s, p)
  {
  }

  /** Two prefixes that differ at a common position cannot both start `s`. */
  lemma PrefixesDiffer(s: string, p: string, q: string, k: nat)
    requires k < |p| && k < |q| && p[k] != q[k]
    requires HasPrefix(s, p)
    ensures !HasPrefix(s, q)
  {
  }

  // ---------------------------------------------------------------- ASCII case

  predicate IsUpper(c: char) { 'A' <= c <= 'Z' }
  predicate IsLower(c: char) { 'a' <= c <= 'z' }

  function LowerChar(c: char): (r: char)
    ensures IsUpper(c) ==> IsLower(r) && r as int == c as int + 32
    ensures !IsUpper(c) ==> r == c
  {
    if IsUpper(c) then (c as int + 32) as char else c
  }

  function UpperChar(c: char): (r: char)
    ensures IsLower(c) ==> IsUpper(r) && r as int == c as int - 32
    ensures !IsLower(c) ==> r == c
  {
    if IsLower(c) then (c as int - 32) as char else c
  }

  /** `strings.ToLower`, restricted to ASCII letters. */
  function ToLower(s: string): (r: string)
    ensures |r| == |s|
    ensures forall i :: 0 <= i < |s| ==> r[i] == LowerChar(s[i])
  {
    if s == [] then [] else [LowerChar(s[0])] + ToLower(s[1..])
  }

  /**
   * The word-boundary test of `strings.Title`: ASCII letters, digits and `_`
   * continue a word, any other ASCII character ends one; beyond ASCII only
   * Unicode white space ends a word.
   */
  predicate IsSeparator(c: char) {
    if c as int <= 0x7F then
      !('0' <= c <= '9' || IsLower(c) || IsUpper(c) || c == '_')
    else
      c as int in {0x85, 0xA0, 0x1680, 0x2028, 0x2029, 0x202F, 0x205F, 0x3000}
      || 0x2000 <= c as int <= 0x200A
  }

  /** Go's `strings.Title` walk, carrying the previous character (initially a space). */
  function TitleFrom(s: string, prev: char): (r: string)
    ensures |r| == |s|
    ensures |s| > 0 ==> r[0] == if IsSeparator(prev) then UpperChar(s[0]) else s[0]
    ensures forall i :: 1 <= i < |s| ==> r[i] == if IsSeparator(s[i - 1]) then UpperChar(s[i]) else s[i]
    decreases |s|
  {
    if s == [] then []
    else [if IsSeparator(prev) then UpperChar(s[0]) else s[0]] + TitleFrom(s[1..], s[0])
  }

  /** `strings.Title`: every letter that begins a word is upper-cased, nothing else changes. */
  function Title(s: string): (r: string)
    ensures |r| == |s|
    ensures forall i :: 0 <= i < |s| ==>
      r[i] == if i == 0 || IsSeparator(s[i - 1]) then UpperChar(s[i]) else s[i]
  {
    TitleFrom(s, ' ')
  }

  /** On a single lower-case word, `Title` capitalises exactly the first letter. */
  lemma TitleOfWord(s: string)
    requires |s| > 0
    requires forall i :: 0 <= i < |s| ==> IsLower(s[i])
    ensures Title(s) == [UpperChar(s[0])] + s[1..]
    ensures IsUpper(Title(s)[0])
  {
    var r := Title(s);
    forall i | 1 <= i < |s|
      ensures r[i] == s[i]
    {
      assert IsLower(s[i - 1]) && IsLower(s[i]);
    }
    assert r == [UpperChar(s[0])] + s[1..];
  }

  // ---------------------------------------------------------------- decimal integers

  predicate IsDigit(c: char) { '0' <= c <= '9' }

  function DigitValue(c: char): (d: nat)
    requires IsDigit(c)
    ensures d < 10
  {
    c as int - '0' as int
  }

  predicate AllDigits(ds: string) {
    forall i :: 0 <= i < |ds| ==> IsDigit(ds[i])
  }

  function Pow10(n: nat): (p: nat)
    ensures p >= 1
  {
    if n == 0 then 1 else 10 * Pow10(n - 1)
  }

  /** Positional value of a digit string, the least significant digit last. */
  function DigitsValue(ds: string): nat
    requires AllDigits(ds)
  {
    if ds == [] then 0 else DigitsValue(ds[..|ds| - 1]) * 10 + DigitValue(ds[|ds| - 1])
  }

  /** Splitting off the leading digit: it weighs `10^(|rest|)`. */
  lemma {:induction false} DigitsValueCons(c: char, rest: string)
    requires IsDigit(c) && AllDigits(rest)
    ensures AllDigits([c] + rest)
    ensures DigitsValue([c] + rest) == DigitValue(c) * Pow10(|rest|) + DigitsValue(rest)
    decreases |rest|
  {
    var s := [c] + rest;
    assert AllDigits(s) by {
      forall i | 0 <= i < |s| ensures IsDigit(s[i]) {
        if i > 0 { assert s[i] == rest[i - 1]; }
      }
    }
    if rest == [] {
      assert s[..|s| - 1] == [];
    } else {
      var init := rest[..|rest| - 1];
      assert AllDigits(init) by {
        forall i | 0 <= i < |init| ensures IsDigit(init[i]) { assert init[i] == rest[i]; }
      }
      assert s[..|s| - 1] == [c] + init;
      assert s[|s| - 1] == rest[|rest| - 1];
      DigitsValueCons(c, init);
      var v, p, last := DigitValue(c), Pow10(|init|), DigitValue(rest[|rest| - 1]);
      assert DigitsValue(s) == DigitsValue([c] + init) * 10 + last;
      assert DigitsValue([c] + init) == v * p + DigitsValue(init);
      assert DigitsValue(rest) == DigitsValue(init) * 10 + last;
      assert Pow10(|rest|) == 10 * p;
      Distribute(v, p, DigitsValue(init));
    }
  }

  lemma Distribute(a: int, b: int, c: int)
    ensures (a * b + c) * 10 == a * (10 * b) + c * 10
  {
  }

  /**
   * The digit loop of `strconv.Atoi`: `n = n*10 + d` for each character left
   * to right, failing on the first non-digit.
   */
  function Accumulate(ds: string, n: nat): (r: Option<nat>)
    ensures r.Some? <==> AllDigits(ds)
    ensures r.Some? ==> r.value == n * Pow10(|ds|) + DigitsValue(ds)
    decreases |ds|
  {
    if ds == [] then Some(n)
    else if !IsDigit(ds[0]) then None
    else
      AccumulateStep(ds, n);
      Accumulate(ds[1..], n * 10 + DigitValue(ds[0]))
  }

  /** One step of the digit loop keeps `n * 10^|ds| + value(ds)` unchanged. */
  lemma AccumulateStep(ds: string, n: nat)
    requires |ds| > 0 && IsDigit(ds[0])
    ensures AllDigits(ds) <==> AllDigits(ds[1..])
    ensures AllDigits(ds[1..]) ==>
      (n * 10 + DigitValue(ds[0])) * Pow10(|ds| - 1) + DigitsValue(ds[1..])
      == n * Pow10(|ds|) + DigitsValue(ds)
  {
    DigitsTail(ds);
    if AllDigits(ds[1..]) {
      var rest := ds[1..];
      assert ds == [ds[0]] + rest;
      DigitsValueCons(ds[0], rest);
      Regroup(n, DigitValue(ds[0]), Pow10(|rest|));
    }
  }

  /** Behind a leading digit, a string is all digits exactly when its tail is. */
  lemma DigitsTail(ds: string)
    requires |ds| > 0 && IsDigit(ds[0])
    ensures AllDigits(ds) <==> AllDigits(ds[1..])
  {
  }

  lemma Regroup(n: int, d: int, p: int)
    ensures (n * 10 + d) * p == n * (10 * p) + d * p
  {
  }

  /** The digits of a decimal literal: everything after an optional sign. */
  function Unsigned(s: string): string {
    if |s| > 0 && (s[0] == '+' || s[0] == '-') then s[1..] else s
  }

  /** Go's decimal-integer syntax for `Atoi`: an optional sign, then one or more digits. */
  predicate IsDecimal(s: string) {
    |Unsigned(s)| > 0 && AllDigits(Unsigned(s))
  }

  function DecimalValue(s: string): int
    requires IsDecimal(s)
  {
    var m: int := DigitsValue(Unsigned(s));
    if s[0] == '-' then -m else m
  }

  const MinInt: int := -0x8000_0000_0000_0000
  const MaxInt: int := 0x7FFF_FFFF_FFFF_FFFF

  /** Go's `int` on the 64-bit targets the notifier is built for. */
  predicate IsGoInt(n: int) { MinInt <= n <= MaxInt }

  /**
   * `strconv.Atoi(s)`, with `None` for the error result. Out-of-range values
   * fail as Go's range error does.
   */
  function Atoi(s: string): (r: Option<int>)
    ensures r.Some? <==> IsDecimal(s) && IsGoInt(DecimalValue(s))
    ensures r.Some? ==> r.value == DecimalValue(s)
  {
    if s == [] then None
    else
      var ds := if s[0] == '+' || s[0] == '-' then s[1..] else s;
      if ds == [] then None
      else match Accumulate(ds, 0)
        case None => None
        case Some(m) =>
          var n: int := if s[0] == '-' then -(m as int) else m;
          if MinInt <= n <= MaxInt then Some(n) else None
  }
}
