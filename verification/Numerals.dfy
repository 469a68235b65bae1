/** What a numeral means: the digits of every base up to 36 by their places in the alphabet, and the text that the
    documentation of strtol describes. Nothing here says how a text is scanned. */
module Numerals {

  /** The place of a character in a text; the length of the text if it is not there. */
  function Find(c: char, s: string): (r: nat)
    ensures r <= |s| && (r < |s| ==> s[r] == c)
    ensures forall i :: 0 <= i < r ==> s[i] != c
  {
    if s == "" || s[0] == c then 0 else 1 + Find(c, s[1..])
  }

  /** The value of a digit, in either case; 36 for a character that is none. */
  function Place(c: char): (r: nat)
    ensures r <= 36
  {
    var lower := Find(c, "0123456789abcdefghijklmnopqrstuvwxyz");
    var upper := Find(c, "0123456789ABCDEFGHIJKLMNOPQRSTUVWXYZ");
    if lower < upper then lower else upper
  }

  /** The number that the digits of t stand for. */
  function PlaceValue(t: string, base: nat): nat {
    hide Place;
    if t == "" then 0 else PlaceValue(t[..|t| - 1], base) * base + Place(t[|t| - 1])
  }

  lemma PlaceMore(t: string, c: char, base: nat)
    ensures PlaceValue("", base) == 0 && PlaceValue(t + [c], base) == PlaceValue(t, base) * base + Place(c)
  {
    hide Place;
    assert (t + [c])[..|t|] == t;
  }

  ghost predicate AllBelow(t: string, base: nat) {
    forall k :: 0 <= k < |t| ==> Place(t[k]) < base
  }

  /** c is one of the first `base` digits, written in small letters. */
  ghost predicate LowDigit(c: char, base: nat)
    requires base <= 16
  {
    c in "0123456789abcdef"[..base]
  }

  /** t is the usual text of n: the digits "0" to "f", and no zero in front. */
  ghost predicate IsNumeral(t: string, base: nat, n: nat)
    requires base <= 16
  {
    && t != "" && (t[0] == '0' ==> |t| == 1)
    && (forall k :: 0 <= k < |t| ==> LowDigit(t[k], base)) && PlaceValue(t, base) == n
  }

  lemma NumeralMore(t: string, c: char, base: nat, n: nat, v: nat)
    requires base <= 16 && IsNumeral(t, base, n) && t[0] != '0' && LowDigit(c, base)
    requires v == n * base + Place(c)
    ensures IsNumeral(t + [c], base, v) && (t + [c])[0] != '0'
  {
    hide Place;
    hide PlaceValue;
    hide LowDigit;
    var u := t + [c];
    PlaceMore(t, c, base);
    assert u[0] == t[0] && u != "";
    forall k | 0 <= k < |u|
      ensures LowDigit(u[k], base)
    {
      if k < |t| { assert u[k] == t[k]; }
    }
  }

  lemma NumeralOne(c: char, base: nat)
    requires base <= 16 && LowDigit(c, base)
    ensures IsNumeral([c], base, Place(c))
  {
    hide Place;
    hide PlaceValue;
    hide LowDigit;
    PlaceMore("", c, base);
    assert "" + [c] == [c];
  }

  // ---- the text that strtol is documented to read ----

  ghost predicate StartsWith(s: string, j: nat, p: string) {
    j + |p| <= |s| && s[j..j + |p|] == p
  }

  /** Blanks up to i, and a sign, if there is one, up to j. */
  ghost predicate Front(s: string, i: nat, j: nat) {
    && i <= j <= |s| && (forall m :: 0 <= m < i ==> s[m] == ' ' || s[m] == '\t')
    && (i < |s| ==> s[i] != ' ' && s[i] != '\t')
    && j == if i < |s| && (s[i] == '+' || s[i] == '-') then i + 1 else i
  }

  /** At j the prefix, if there is one, up to k; then the base is b. */
  ghost predicate BasePrefix(s: string, j: nat, base: nat, b: nat, k: nat) {
    if base == 0 then
      if StartsWith(s, j, "0x") then b == 16 && k == j + 2
      else if StartsWith(s, j, "0") then b == 8 && k == j + 1
      else b == 10 && k == j
    else if base == 16 && (StartsWith(s, j, "0x") || StartsWith(s, j, "0X")) then b == 16 && k == j + 2
    else b == base && k == j
  }

  /** The digits of base b go from k up to end, and no further. */
  ghost predicate DigitsFrom(s: string, k: nat, end: nat, b: nat) {
    k <= end <= |s| && AllBelow(s[k..end], b) && (end < |s| ==> Place(s[end]) >= b)
  }

  ghost predicate DocumentedBy(s: string, base: nat, val: int, end: nat, i: nat, j: nat, b: nat, k: nat) {
    && Front(s, i, j) && BasePrefix(s, j, base, b, k) && DigitsFrom(s, k, end, b)
    && val == if i < |s| && s[i] == '-' then 0 - PlaceValue(s[k..end], b) else PlaceValue(s[k..end], b)
  }

  /** The number, and the position behind it, that the documentation promises. */
  ghost predicate Documented(s: string, base: nat, val: int, end: nat) {
    exists i: nat, j: nat, b: nat, k: nat :: DocumentedBy(s, base, val, end, i, j, b, k)
  }

  /** In base 16 the prefix is written with a capital letter. */
  ghost predicate UpperPrefix(s: string, base: nat) {
    base == 16 && exists i: nat, j: nat :: Front(s, i, j) && StartsWith(s, j, "0X")
  }

  lemma FrontOnce(s: string, i: nat, j: nat, i': nat, j': nat)
    requires Front(s, i, j) && Front(s, i', j')
    ensures i == i' && j == j'
  {}

  lemma DigitsOnce(s: string, k: nat, b: nat, end: nat, end': nat)
    requires DigitsFrom(s, k, end, b) && DigitsFrom(s, k, end', b)
    ensures end == end'
  {
    hide Place;
    assert forall m :: k <= m < end ==> s[k..end][m - k] == s[m];
    assert forall m :: k <= m < end' ==> s[k..end'][m - k] == s[m];
  }

  /** The documentation leaves no choice. */
  lemma DocumentedOnce(s: string, base: nat, val: int, end: nat, val': int, end': nat)
    requires Documented(s, base, val, end) && Documented(s, base, val', end')
    ensures val == val' && end == end'
  {
    hide DigitsFrom;
    hide Place;
    hide PlaceValue;
    var i: nat, j: nat, b: nat, k: nat :| DocumentedBy(s, base, val, end, i, j, b, k);
    var i': nat, j': nat, b': nat, k': nat :| DocumentedBy(s, base, val', end', i', j', b', k');
    FrontOnce(s, i, j, i', j');
    DigitsOnce(s, k, b, end, end');
  }
}
