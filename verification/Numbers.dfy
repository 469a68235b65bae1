/** Printing a number in base 8, 10 or 16 and parsing it back: the texts of printnum, and strtol. */
module Numbers {
  import opened Numerals

  const DIGITS: string := "0123456789abcdef"

  function Repeat(c: char, n: int): (s: string)
    ensures |s| == (if n > 0 then n else 0) && forall i :: 0 <= i < |s| ==> s[i] == c
  {
    if n <= 0 then [] else [c] + Repeat(c, n - 1)
  }

  lemma DivideStep(num: nat, base: nat)
    requires base >= 2
    ensures 0 <= num / base && (num >= base ==> num / base < num)
    ensures num / base * base + num % base == num && num % base < base
  {}

  /** The digits of num, most significant first. */
  function Digits(num: nat, base: nat): (s: string)
    requires 2 <= base <= 16
    ensures |s| > 0
    decreases num
  {
    if num < base then [DIGITS[num]] else
      DivideStep(num, base);
      Digits(num / base, base) + [DIGITS[num % base]]
  }

  /** What printnum emits: the digits, padded on the left to `width` characters. */
  function NumText(num: nat, base: nat, width: int, padc: char): (s: string)
    requires 2 <= base <= 16
    ensures |s| == if width > |Digits(num, base)| then width else |Digits(num, base)|
  {
    Repeat(padc, width - |Digits(num, base)|) + Digits(num, base)
  }

  // ---- strtol ----

  /** The value of a digit in any base up to 36; 99 for a character that is none. */
  function DigitValue(c: char): nat {
    if '0' <= c <= '9' then c as nat - '0' as nat
    else if 'a' <= c <= 'z' then c as nat - 'a' as nat + 10
    else if 'A' <= c <= 'Z' then c as nat - 'A' as nat + 10
    else 99
  }

  function At(s: string, i: nat): char {
    if i < |s| then s[i] else '\0'
  }

  function SkipBlanks(s: string, i: nat): (r: nat)
    requires i <= |s|
    ensures i <= r <= |s|
    decreases |s| - i
  {
    if i < |s| && (s[i] == ' ' || s[i] == '\t') then SkipBlanks(s, i + 1) else i
  }

  /** The value of the digits from i on, after `val`, and where they end. */
  function ParseDigits(s: string, i: nat, base: nat, val: nat): (nat, nat)
    requires i <= |s| && base <= 36
    decreases |s| - i
  {
    if i < |s| && DigitValue(s[i]) < base then ParseDigits(s, i + 1, base, val * base + DigitValue(s[i]))
    else (val, i)
  }

  /** The base strtol uses and the position where its digits start. */
  function Prefix(s: string, i: nat, base: nat): (r: (nat, nat))
    requires i <= |s| && base <= 36
    ensures r.0 <= 36 && r.1 <= |s|
  {
    if (base == 0 || base == 16) && At(s, i) == '0' && At(s, i + 1) == 'x' then (16, i + 2)
    else if base == 0 && At(s, i) == '0' then (8, i + 1)
    else if base == 0 then (10, i)
    else (base, i)
  }

  function Signed(neg: bool, v: nat): int {
    if neg then 0 - v else v
  }

  /** Where the number proper starts: behind blanks and a sign. */
  function Body(s: string): (j: nat)
    ensures j <= |s|
  {
    var i := SkipBlanks(s, 0);
    if At(s, i) == '+' || At(s, i) == '-' then i + 1 else i
  }

  /** The number strtol reads and the position it stops at. */
  function StrtolOf(s: string, base: nat): (int, nat)
    requires base <= 36
  {
    var (b, k) := Prefix(s, Body(s), base);
    var (val, end) := ParseDigits(s, k, b, 0);
    (Signed(At(s, SkipBlanks(s, 0)) == '-', val), end)
  }

  /** Signs and base prefix: where the digits start, in which base. */
  method SignAndPrefix(s: string, i: nat, base: nat) returns (neg: bool, j: nat, b: nat)
    requires i <= |s| && base <= 36
    ensures neg == (At(s, i) == '-')
    ensures (b, j) == Prefix(s, if At(s, i) == '+' || At(s, i) == '-' then i + 1 else i, base)
  {
    neg, j, b := false, i, base;
    if At(s, j) == '+' {
      j := j + 1;
    } else if At(s, j) == '-' {
      j, neg := j + 1, true;
    }
    if (b == 0 || b == 16) && At(s, j) == '0' && At(s, j + 1) == 'x' {
      j, b := j + 2, 16;
    } else if b == 0 && At(s, j) == '0' {
      j, b := j + 1, 8;
    } else if b == 0 {
      b := 10;
    }
  }

  lemma ParseStep(s: string, i: nat, base: nat, val: nat)
    requires i <= |s| && base <= 36
    ensures ParseDigits(s, i, base, val) ==
      if i < |s| && DigitValue(s[i]) < base then ParseDigits(s, i + 1, base, val * base + DigitValue(s[i]))
      else (val, i)
  {}

  /** The digit loop. */
  method ReadDigits(s: string, first: nat, base: nat) returns (val: nat, i: nat)
    requires first <= |s| && base <= 36
    ensures (val, i) == ParseDigits(s, first, base, 0)
  {
    hide ParseDigits;
    i, val := first, 0;
    while true
      invariant i <= |s| && ParseDigits(s, i, base, val) == ParseDigits(s, first, base, 0)
      decreases |s| - i
    {
      ParseStep(s, i, base, val);
      var c := At(s, i);
      var dig: nat;
      if '0' <= c <= '9' {
        dig := c as nat - '0' as nat;
      } else if 'a' <= c <= 'z' {
        dig := c as nat - 'a' as nat + 10;
      } else if 'A' <= c <= 'Z' {
        dig := c as nat - 'A' as nat + 10;
      } else {
        break;
      }
      if dig >= base { break; }
      i, val := i + 1, val * base + dig;
    }
  }

  /** strtol on a string that ends where s ends. Overflow is not detected by the source; the value here
      is unbounded, and stays in range whenever the number written does. */
  method Strtol(s: string, base: nat) returns (val: int, end: nat)
    requires base <= 36
    ensures (val, end) == StrtolOf(s, base)
    ensures Documented(s, base, val, end) <==> !UpperPrefix(s, base)
  {
    hide Documented;
    hide UpperPrefix;
    hide Place;
    hide ParseDigits;
    MeetsDocumented(s, base);
    var i: nat := 0;
    while At(s, i) == ' ' || At(s, i) == '\t'
      invariant i <= |s| && SkipBlanks(s, i) == SkipBlanks(s, 0)
      decreases |s| - i
    {
      i := i + 1;
    }
    var neg, j, b := SignAndPrefix(s, i, base);
    var v;
    v, end := ReadDigits(s, j, b);
    val := Signed(neg, v);
  }

  // ---- the round trip ----

  lemma DigitIsDigit(d: nat, base: nat)
    requires d < base <= 16
    ensures DigitValue(DIGITS[d]) == d && DIGITS[d] !in " \t+-x"
  {}

  /** Reading on through a block of digits. */
  lemma {:induction false} ParseOn(s: string, i: nat, t: string, base: nat, val: nat)
    requires base <= 36 && i + |t| <= |s| && s[i..i + |t|] == t
    requires forall k :: 0 <= k < |t| ==> DigitValue(t[k]) < base
    ensures ParseDigits(s, i, base, val) == ParseDigits(s, i + |t|, base, Value(t, base, val))
    decreases |t|
  {
    if t != [] {
      assert s[i] == t[0];
      assert s[i + 1..i + 1 + |t[1..]|] == t[1..];
      ParseOn(s, i + 1, t[1..], base, val * base + DigitValue(t[0]));
    }
  }

  /** The number that the digits t continue `val` to. */
  function Value(t: string, base: nat, val: nat): nat
    decreases |t|
  {
    if t == [] then val else Value(t[1..], base, val * base + DigitValue(t[0]))
  }

  lemma {:induction false} ValueAppend(t: string, c: char, base: nat, val: nat)
    ensures Value(t + [c], base, val) == Value(t, base, val) * base + DigitValue(c)
    decreases |t|
  {
    if t == [] {
      assert (t + [c])[1..] == [];
    } else {
      assert (t + [c])[1..] == t[1..] + [c];
      ValueAppend(t[1..], c, base, val * base + DigitValue(t[0]));
    }
  }

  lemma {:induction false} ValueOfDigits(num: nat, base: nat)
    requires 2 <= base <= 16
    ensures Value(Digits(num, base), base, 0) == num
    decreases num
  {
    if num < base {
      DigitIsDigit(num, base);
      assert [DIGITS[num]][1..] == [];
    } else {
      DivideStep(num, base);
      ValueOfDigits(num / base, base);
      ValueAppend(Digits(num / base, base), DIGITS[num % base], base, 0);
      DigitIsDigit(num % base, base);
    }
  }

  lemma {:induction false} ValueOfZeros(n: int, t: string, base: nat)
    ensures Value(Repeat('0', n) + t, base, 0) == Value(t, base, 0)
  {
    var s := Repeat('0', n) + t;
    if n > 0 {
      assert s[1..] == Repeat('0', n - 1) + t;
      ValueOfZeros(n - 1, t, base);
    } else {
      assert s == t;
    }
  }

  /** Every character of a number is a digit of its base, and no blank, sign or prefix letter. */
  ghost predicate AllDigits(t: string, base: nat) {
    forall k :: 0 <= k < |t| ==> DigitValue(t[k]) < base && t[k] !in " \t+-x"
  }

  lemma {:induction false} DigitsAreDigits(num: nat, base: nat)
    requires 2 <= base <= 16
    ensures AllDigits(Digits(num, base), base)
    decreases num
  {
    hide DigitValue;
    DivideStep(num, base);
    if num < base {
      DigitIsDigit(num, base);
    } else {
      DigitsAreDigits(num / base, base);
      DigitIsDigit(num % base, base);
    }
  }

  lemma {:induction false} SkipRun(s: string, i: nat, n: nat)
    requires i + n <= |s| && (forall k :: i <= k < i + n ==> s[k] == ' ') && At(s, i + n) !in " \t"
    ensures SkipBlanks(s, i) == i + n
    decreases n
  {
    if n > 0 { SkipRun(s, i + 1, n - 1); }
  }

  /** Digits alone: no sign, no prefix, all read. */
  lemma ParseAll(s: string, i: nat, base: nat)
    requires i < |s| && AllDigits(s[i..], base) && 8 <= base <= 16
    ensures At(s, i) !in " \t+-" && Prefix(s, i, base) == (base, i)
    ensures ParseDigits(s, i, base, 0) == (Value(s[i..], base, 0), |s|)
  {
    hide Value;
    hide DigitValue;
    assert s[i] == s[i..][0];
    if i + 1 < |s| { assert s[i + 1] == s[i..][1]; }
    ParseOn(s, i, s[i..], base, 0);
  }

  // ---- what is read is what is documented ----

  lemma LowerAt(d: nat)
    requires d < 36
    ensures "0123456789abcdefghijklmnopqrstuvwxyz"[d] == if d < 10 then (48 + d) as char else (87 + d) as char
  {}

  lemma UpperAt(d: nat)
    requires d < 36
    ensures "0123456789ABCDEFGHIJKLMNOPQRSTUVWXYZ"[d] == if d < 10 then (48 + d) as char else (55 + d) as char
  {}

  /** The ranges of characters that the digit loop tests are the digits' places in the alphabet. */
  lemma DigitPlace(c: char)
    ensures Place(c) == if DigitValue(c) < 36 then DigitValue(c) else 36
  {
    var d := DigitValue(c);
    var lower := Find(c, "0123456789abcdefghijklmnopqrstuvwxyz");
    var upper := Find(c, "0123456789ABCDEFGHIJKLMNOPQRSTUVWXYZ");
    if lower < 36 { LowerAt(lower); }
    if upper < 36 { UpperAt(upper); }
    if d < 36 {
      LowerAt(d);
      UpperAt(d);
    }
  }

  lemma {:induction false} ValueIsPlace(t: string, base: nat)
    requires base <= 36 && AllBelow(t, base)
    ensures Value(t, base, 0) == PlaceValue(t, base)
    decreases |t|
  {
    hide Place;
    hide DigitValue;
    if t != "" {
      var init, c := t[..|t| - 1], t[|t| - 1];
      ValueIsPlace(init, base);
      ValueAppend(init, c, base, 0);
      assert t == init + [c];
      DigitPlace(c);
    }
  }

  /** Where the digit loop stops, and the number it has then. */
  lemma {:induction false} ParseSpan(s: string, i: nat, base: nat, val: nat)
    requires i <= |s| && base <= 36
    ensures var (v, end) := ParseDigits(s, i, base, val);
      DigitsFrom(s, i, end, base) && v == Value(s[i..end], base, val)
    decreases |s| - i
  {
    hide Place;
    hide DigitValue;
    if i < |s| {
      DigitPlace(s[i]);
      if DigitValue(s[i]) < base {
        ParseSpan(s, i + 1, base, val * base + DigitValue(s[i]));
        var end := ParseDigits(s, i, base, val).1;
        assert s[i..end] == [s[i]] + s[i + 1..end];
      }
    }
  }

  lemma {:induction false} SkipSpan(s: string, i: nat)
    requires i <= |s|
    ensures var e := SkipBlanks(s, i);
      (forall m :: i <= m < e ==> s[m] == ' ' || s[m] == '\t') && (e < |s| ==> s[e] != ' ' && s[e] != '\t')
    decreases |s| - i
  {
    if i < |s| && (s[i] == ' ' || s[i] == '\t') { SkipSpan(s, i + 1); }
  }

  /** The parts that strtol finds. */
  lemma Found(s: string, base: nat)
    requires base <= 36
    ensures Front(s, SkipBlanks(s, 0), Body(s))
    ensures var (b, k) := Prefix(s, Body(s), base); DigitsFrom(s, k, StrtolOf(s, base).1, b)
    ensures var (b, k) := Prefix(s, Body(s), base);
      var (val, end) := StrtolOf(s, base);
      var i := SkipBlanks(s, 0);
      && k <= end <= |s|
      && val == if i < |s| && s[i] == '-' then 0 - PlaceValue(s[k..end], b) else PlaceValue(s[k..end], b)
  {
    hide ParseDigits;
    hide DigitsFrom;
    hide SkipBlanks;
    hide Place;
    hide PlaceValue;
    SkipSpan(s, 0);
    var (b, k) := Prefix(s, Body(s), base);
    ParseSpan(s, k, b, 0);
    SpanBelow(s, k, StrtolOf(s, base).1, b);
    ValueIsPlace(s[k..StrtolOf(s, base).1], b);
  }

  lemma SpanBelow(s: string, k: nat, end: nat, b: nat)
    requires DigitsFrom(s, k, end, b)
    ensures k <= end <= |s| && AllBelow(s[k..end], b)
  {}

  lemma PrefixFound(s: string, j: nat, base: nat)
    requires j <= |s| && base <= 36
    ensures var (b, k) := Prefix(s, j, base);
      BasePrefix(s, j, base, b, k) <==> !(base == 16 && StartsWith(s, j, "0X"))
  {
    assert StartsWith(s, j, "0x") <==> At(s, j) == '0' && At(s, j + 1) == 'x';
    assert StartsWith(s, j, "0X") <==> At(s, j) == '0' && At(s, j + 1) == 'X';
    assert StartsWith(s, j, "0") <==> At(s, j) == '0';
  }

  /** strtol does what is documented exactly when no "0X" stands before a number in base 16. There it reads the zero and
      stops at the letter. */
  lemma MeetsDocumented(s: string, base: nat)
    requires base <= 36
    ensures Documented(s, base, StrtolOf(s, base).0, StrtolOf(s, base).1) <==> !UpperPrefix(s, base)
    ensures forall i: nat, j: nat :: base == 16 && Front(s, i, j) && StartsWith(s, j, "0X") ==>
      StrtolOf(s, base) == (0, j + 1)
  {
    hide Place;
    hide PlaceValue;
    hide DigitsFrom;
    hide StrtolOf;
    hide Body;
    hide Prefix;
    var i, j := SkipBlanks(s, 0), Body(s);
    var (b, k) := Prefix(s, j, base);
    var (val, end) := StrtolOf(s, base);
    Found(s, base);
    PrefixFound(s, j, base);
    if base == 16 && StartsWith(s, j, "0X") {
      UpperEnds(s, j);
      assert UpperPrefix(s, base);
      if Documented(s, base, val, end) {
        var i': nat, j': nat, b': nat, k': nat :| DocumentedBy(s, base, val, end, i', j', b', k');
        FrontOnce(s, i, j, i', j');
        SpanBelow(s, k', end, b');
      }
    } else {
      assert DocumentedBy(s, base, val, end, i, j, b, k);
      if UpperPrefix(s, base) {
        var i': nat, j': nat :| Front(s, i', j') && StartsWith(s, j', "0X");
        FrontOnce(s, i, j, i', j');
      }
    }
    forall i': nat, j': nat | base == 16 && Front(s, i', j') && StartsWith(s, j', "0X")
      ensures StrtolOf(s, base) == (0, j' + 1)
    {
      FrontOnce(s, i, j, i', j');
    }
  }

  lemma UpperEnds(s: string, j: nat)
    requires j == Body(s) && StartsWith(s, j, "0X")
    ensures StrtolOf(s, 16) == (0, j + 1)
  {
    hide Body;
    assert s[j] == s[j..j + 2][0] && s[j + 1] == s[j..j + 2][1];
    ParseStep(s, j, 16, 0);
    ParseStep(s, j + 1, 16, 0);
  }

  /** A text that is documented to be read in some way is read that way. */
  lemma ReadAs(s: string, base: nat, val: int, end: nat, i: nat, j: nat, b: nat, k: nat)
    requires base <= 36 && DocumentedBy(s, base, val, end, i, j, b, k) && !(base == 16 && StartsWith(s, j, "0X"))
    ensures StrtolOf(s, base) == (val, end)
  {
    hide StrtolOf;
    hide DocumentedBy;
    MeetsDocumented(s, base);
    if UpperPrefix(s, base) {
      var i': nat, j': nat :| Front(s, i', j') && StartsWith(s, j', "0X");
      DocumentedFront(s, base, val, end, i, j, b, k);
      FrontOnce(s, i, j, i', j');
    }
    DocumentedOnce(s, base, val, end, StrtolOf(s, base).0, StrtolOf(s, base).1);
  }

  lemma DocumentedFront(s: string, base: nat, val: int, end: nat, i: nat, j: nat, b: nat, k: nat)
    requires DocumentedBy(s, base, val, end, i, j, b, k)
    ensures Front(s, i, j)
  {}

  lemma UpperPrefixStops(t: string)
    ensures StrtolOf("0X" + t, 16) == (0, 1)
  {
    var s := "0X" + t;
    hide StrtolOf;
    assert Front(s, 0, 0) && StartsWith(s, 0, "0X");
    MeetsDocumented(s, 16);
  }

  /** Written "0x", the prefix is skipped and all hexadecimal digits after it are read. */
  lemma LowerPrefixRead(t: string, base: nat)
    requires (base == 0 || base == 16) && AllBelow(t, 16)
    ensures StrtolOf("0x" + t, base) == (PlaceValue(t, 16), |t| + 2)
  {
    hide Place;
    hide PlaceValue;
    hide StrtolOf;
    var s := "0x" + t;
    assert s[0..2] == "0x" && s[2..|s|] == t;
    assert DocumentedBy(s, base, PlaceValue(t, 16), |s|, 0, 0, 16, 2);
    ReadAs(s, base, PlaceValue(t, 16), |s|, 0, 0, 16, 2);
  }

  /** In base 0 a zero in front means octal. */
  lemma OctalRead(t: string)
    requires AllBelow(t, 8)
    ensures StrtolOf("0" + t, 0) == (PlaceValue(t, 8), |t| + 1)
  {
    hide Place;
    hide PlaceValue;
    hide StrtolOf;
    var s := "0" + t;
    assert s[0..1] == "0" && s[1..|s|] == t;
    NoDigits('x');
    if t != "" { assert s[0..2][1] == t[0]; }
    assert DocumentedBy(s, 0, PlaceValue(t, 8), |s|, 0, 0, 8, 1);
    ReadAs(s, 0, PlaceValue(t, 8), |s|, 0, 0, 8, 1);
  }

  /** And any other digit in front means decimal. */
  lemma DecimalRead(t: string)
    requires t != "" && AllBelow(t, 10) && t[0] in "123456789"
    ensures StrtolOf(t, 0) == (PlaceValue(t, 10), |t|)
  {
    hide *;
    DecimalFront(t);
    DecimalDigitsAll(t);
    WholeDocumented(t, 0, 10);
    ReadAs(t, 0, PlaceValue(t, 10), |t|, 0, 0, 10, 0);
  }

  lemma DecimalFront(t: string)
    requires t != "" && t[0] in "123456789"
    ensures Front(t, 0, 0) && BasePrefix(t, 0, 0, 10, 0) && t[0] != '-'
  {
    assert t[0..1][0] == t[0] && (|t| >= 2 ==> t[0..2][0] == t[0]);
  }

  lemma DecimalDigitsAll(t: string)
    requires AllBelow(t, 10)
    ensures DigitsFrom(t, 0, |t|, 10) && t[0..|t|] == t
  {
    hide Place;
    assert t[0..|t|] == t;
  }

  lemma WholeDocumented(t: string, base: nat, b: nat)
    requires t != "" && Front(t, 0, 0) && BasePrefix(t, 0, base, b, 0) && DigitsFrom(t, 0, |t|, b)
    requires t[0] != '-' && t[0..|t|] == t
    ensures DocumentedBy(t, base, PlaceValue(t, b), |t|, 0, 0, b, 0)
  {
    hide Front;
    hide BasePrefix;
    hide DigitsFrom;
    hide PlaceValue;
  }

  /** In a given base, blanks and tabs, either sign or none, and digits in either case are read to the end. */
  lemma PlainRead(blanks: string, sign: string, t: string, base: nat)
    requires 2 <= base <= 36 && AllBelow(t, base) && t != ""
    requires forall m :: 0 <= m < |blanks| ==> blanks[m] == ' ' || blanks[m] == '\t'
    requires sign == "" || sign == "+" || sign == "-"
    ensures StrtolOf(blanks + sign + t, base) ==
      (if sign == "-" then 0 - PlaceValue(t, base) else PlaceValue(t, base), |blanks| + |sign| + |t|)
  {
    hide Place;
    hide PlaceValue;
    hide StrtolOf;
    var s, i := blanks + sign + t, |blanks|;
    var j := i + |sign|;
    var val := if sign == "-" then 0 - PlaceValue(t, base) else PlaceValue(t, base);
    PlainFront(blanks, sign, t, base);
    assert s[j..|s|] == t;
    hide Front;
    assert DocumentedBy(s, base, val, |s|, i, j, base, j);
    ReadAs(s, base, val, |s|, i, j, base, j);
  }

  lemma PlainFront(blanks: string, sign: string, t: string, base: nat)
    requires base <= 36 && AllBelow(t, base) && t != ""
    requires forall m :: 0 <= m < |blanks| ==> blanks[m] == ' ' || blanks[m] == '\t'
    requires sign == "" || sign == "+" || sign == "-"
    ensures var s, i, j := blanks + sign + t, |blanks|, |blanks| + |sign|;
      && Front(s, i, j) && (s[i] == '-' <==> sign == "-")
      && (base == 16 ==> !StartsWith(s, j, "0x") && !StartsWith(s, j, "0X"))
  {
    hide Place;
    var s, i, j := blanks + sign + t, |blanks|, |blanks| + |sign|;
    NoDigits(t[0]);
    assert s[j] == t[0] && (sign != "" ==> s[i] == sign[0]);
    if |t| >= 2 {
      NoDigits(t[1]);
      assert s[j..j + 2][1] == t[1];
    }
  }

  lemma NoDigits(c: char)
    ensures c == ' ' || c == '\t' || c == '+' || c == '-' ==> Place(c) == 36
    ensures c == 'x' || c == 'X' ==> Place(c) == 33
  {
    hide Place;
    DigitPlace(c);
  }

  // ---- printed numerals ----

  /** printnum's digits are the usual numeral. */
  lemma {:induction false} DigitsAreNumeral(num: nat, base: nat)
    requires 2 <= base <= 16
    ensures IsNumeral(Digits(num, base), base, num) && (num > 0 ==> Digits(num, base)[0] != '0')
    decreases num
  {
    hide *;
    DivideStep(num, base);
    DigitsInAlphabet(num % base, base);
    DigitsStep(num, base);
    if num < base {
      NumeralOne(DIGITS[num], base);
    } else {
      DigitsAreNumeral(num / base, base);
      NumeralMore(Digits(num / base, base), DIGITS[num % base], base, num / base, num);
    }
  }

  lemma DigitsStep(num: nat, base: nat)
    requires 2 <= base <= 16
    ensures num % base < |DIGITS| && (num < base ==> num % base == num && Digits(num, base) == [DIGITS[num]])
    ensures num >= base ==> 0 < num / base < num && Digits(num, base) == Digits(num / base, base) + [DIGITS[num % base]]
  {
    DivideStep(num, base);
  }

  lemma DigitsInAlphabet(d: nat, base: nat)
    requires d < base <= 16
    ensures LowDigit(DIGITS[d], base) && Place(DIGITS[d]) == d && (DIGITS[d] == '0' ==> d == 0)
  {
    hide Place;
    DigitIsDigit(d, base);
    DigitPlace(DIGITS[d]);
    assert "0123456789abcdef"[..base][d] == DIGITS[d];
  }

  // ---- printed numbers ----

  /** printnum with blanks, then strtol. */
  lemma BlankRoundTrip(num: nat, base: nat, width: int)
    requires base == 8 || base == 10 || base == 16
    ensures StrtolOf(NumText(num, base, width, ' '), base) == (num, |NumText(num, base, width, ' ')|)
  {
    hide Digits;
    hide Value;
    hide ParseDigits;
    hide Prefix;
    hide DigitValue;
    hide Repeat;
    hide SkipBlanks;
    var t := Digits(num, base);
    var pad := Repeat(' ', width - |t|);
    var s := NumText(num, base, width, ' ');
    assert s == pad + t;
    DigitsAreDigits(num, base);
    ValueOfDigits(num, base);
    assert s[|pad|..] == t && At(s, |pad|) == t[0];
    SkipRun(s, 0, |pad|);
    ParseAll(s, |pad|, base);
  }

  /** printnum with zeros, then strtol. */
  lemma ZeroRoundTrip(num: nat, base: nat, width: int)
    requires base == 8 || base == 10 || base == 16
    ensures StrtolOf(NumText(num, base, width, '0'), base) == (num, |NumText(num, base, width, '0')|)
  {
    hide Digits;
    hide Value;
    hide ParseDigits;
    hide Prefix;
    hide DigitValue;
    hide Repeat;
    hide SkipBlanks;
    var t := Digits(num, base);
    var s := NumText(num, base, width, '0');
    DigitsAreDigits(num, base);
    ValueOfDigits(num, base);
    DigitIsDigit(0, base);
    assert s[0..] == s;
    assert AllDigits(s, base);
    ValueOfZeros(width - |t|, t, base);
    assert At(s, 0) == s[0];
    SkipRun(s, 0, 0);
    ParseAll(s, 0, base);
  }

  /** printnum, then strtol: the number comes back, for any width, padded with zeros or with blanks. */
  lemma RoundTrip(num: nat, base: nat, width: int, padc: char)
    requires base == 8 || base == 10 || base == 16
    requires padc == '0' || padc == ' '
    ensures StrtolOf(NumText(num, base, width, padc), base) == (num, |NumText(num, base, width, padc)|)
  {
    hide *;
    if padc == ' ' {
      BlankRoundTrip(num, base, width);
    } else {
      ZeroRoundTrip(num, base, width);
    }
  }

  /** The decimal text of a signed number: %d puts the sign before the padded magnitude. */
  function DecText(num: int, width: int, padc: char): string {
    if num < 0 then "-" + NumText(-num, 10, width, padc) else NumText(num, 10, width, padc)
  }

  /** With zeros or no padding at all, signed numbers come back too. */
  lemma SignedRoundTrip(num: int, width: int, padc: char)
    requires padc == '0' || width <= 0
    ensures StrtolOf(DecText(num, width, padc), 10) == (num, |DecText(num, width, padc)|)
  {
    hide Digits;
    hide Value;
    hide ParseDigits;
    hide Prefix;
    hide DigitValue;
    if num >= 0 {
      SameText(num, width, padc);
      RoundTrip(num, 10, width, '0');
    } else {
      var t := NumText(-num, 10, width, padc);
      var s := "-" + t;
      SameText(-num, width, padc);
      DigitsAreDigits(-num, 10);
      ValueOfDigits(-num, 10);
      DigitIsDigit(0, 10);
      assert s[1..] == t && AllDigits(t, 10);
      ValueOfZeros(width - |Digits(-num, 10)|, Digits(-num, 10), 10);
      SkipRun(s, 0, 0);
      ParseAll(s, 1, 10);
    }
  }

  lemma SameText(num: nat, width: int, padc: char)
    requires padc == '0' || width <= 0
    ensures NumText(num, 10, width, padc) == NumText(num, 10, width, '0')
  {}
}
