/** What each escape of a format prints, said of the printed text itself. */
module Escapes {
  import opened Numerals
  import opened Numbers
  import opened Options
  import opened Printfmt

  /** The format is one escape and nothing else: its flags are sp, its conversion character is c, and its argument is
      the k-th, the ones before having gone to '*' widths. */
  ghost predicate Alone(fmt: string, args: seq<Arg>, k: nat, sp: Spec, c: char) {
    && |fmt| >= 2 && fmt[0] == '%' && c == fmt[|fmt| - 1]
    && Flags(fmt, 1, args, 0, PLAIN) == (sp, |fmt| - 1, k)
  }

  lemma AloneText(fmt: string, args: seq<Arg>, k: nat, sp: Spec, c: char)
    requires Alone(fmt, args, k, sp, c) && IsConversion(c)
    ensures Format(fmt, 0, args, 0) == Convert(c, sp, args, k)
  {
    hide Convert;
    hide Flags;
    FormatStep(fmt, 0, args, 0);
    FormatStep(fmt, |fmt|, args, if c == '%' then k else k + 1);
  }

  // ---- flags ----

  /** One escape with its flags in their usual order: '#', padding, width, precision, size. */
  function EscapeText(alt: bool, pad: string, width: Option<nat>, precision: Option<nat>, longs: nat, c: char): string {
    "%" + ((if alt then "#" else "") + (pad + ((if width.Some? then Digits(width.value, 10) else "")
    + ((if precision.Some? then "." else "") + ((if precision.Some? then Digits(precision.value, 10) else "")
    + (Repeat('l', longs) + [c]))))))
  }

  /** What they mean. A width that is not there counts as zero before a precision. */
  function FlagSpec(alt: bool, pad: string, width: Option<nat>, precision: Option<nat>, longs: nat): Spec {
    Spec(if width.Some? then width.value else if precision.Some? then 0 else -1,
         if precision.Some? then precision.value else -1,
         if pad == "0" then '0' else if pad == "-" then '-' else ' ', longs, alt)
  }

  /** Flags in their usual order mean what they say, whatever the conversion behind them. */
  lemma FlagsRead(alt: bool, pad: string, width: Option<nat>, precision: Option<nat>, longs: nat, c: char,
                  args: seq<Arg>)
    requires pad == "" || pad == "0" || pad == "-"
    requires (width.Some? ==> width.value > 0) && (precision.Some? ==> precision.value > 0)
    requires c !in "-0123456789*.#l"
    ensures Alone(EscapeText(alt, pad, width, precision, longs, c), args, 0,
                  FlagSpec(alt, pad, width, precision, longs), c)
  {
    hide *;
    var fmt := EscapeText(alt, pad, width, precision, longs, c);
    var a, w := if alt then "#" else "", if width.Some? then Digits(width.value, 10) else "";
    var dot := if precision.Some? then "." else "";
    var p, l := if precision.Some? then Digits(precision.value, 10) else "", Repeat('l', longs);
    var i := TextIs(fmt, alt, pad, width, precision, longs, c, a, w, dot, p, l);
    var sp1 := PLAIN.(alt := alt);
    var sp2 := sp1.(padc := if pad == "0" then '0' else if pad == "-" then '-' else ' ');
    var sp3 := if width.Some? then WithNumber(sp2, width.value) else sp2;
    var sp4 := FlagSpec(alt, pad, width, precision, 0);
    SpecIs(alt, pad, width, precision, longs, sp2, sp3, sp4);
    i := AltRead(fmt, i, args, alt, a, pad + (w + (dot + (p + (l + [c])))), sp1);
    i := PadRead(fmt, i, args, pad, w + (dot + (p + (l + [c]))), sp1, sp2);
    i := WidthRead(fmt, i, args, sp2, width, w, dot + (p + (l + [c])), sp3);
    i := PrecisionRead(fmt, i, args, sp3, precision, dot, p, l + [c], sp4);
    i := LongFlags(fmt, i, args, 0, sp4, longs, c);
    LastFlag(fmt, i, args, 0, sp4.(longs := longs));
    AloneIs(fmt, i, args, 0, FlagSpec(alt, pad, width, precision, longs), c);
  }

  /** What is left of the format from i on. */
  ghost predicate Tail(fmt: string, i: nat, rest: string) {
    i <= |fmt| && fmt[i..] == rest
  }

  lemma NextPiece(fmt: string, i: nat, x: string, rest: string)
    requires Tail(fmt, i, x + rest)
    ensures Tail(fmt, i + |x|, rest) && StartsWith(fmt, i, x)
    ensures x != "" ==> i < |fmt| && fmt[i] == x[0]
    ensures rest != "" ==> i + |x| < |fmt| && fmt[i + |x|] == rest[0]
  {
    assert fmt[i..i + |x|] == fmt[i..][..|x|] == x;
    assert fmt[i + |x|..] == fmt[i..][|x|..] == rest;
    assert x != "" ==> fmt[i] == fmt[i..][0];
    assert rest != "" ==> fmt[i + |x|] == fmt[i + |x|..][0];
  }

  lemma AloneIs(fmt: string, i: nat, args: seq<Arg>, k: nat, sp: Spec, c: char)
    requires i > 0 && Tail(fmt, i, [c]) && fmt[0] == '%' && Flags(fmt, 1, args, 0, PLAIN) == (sp, i, k)
    ensures Alone(fmt, args, k, sp, c)
  {
    hide Flags;
    assert fmt[i] == fmt[i..][0];
  }

  lemma TextIs(fmt: string, alt: bool, pad: string, width: Option<nat>, precision: Option<nat>, longs: nat, c: char,
               a: string, w: string, dot: string, p: string, l: string) returns (i: nat)
    requires fmt == EscapeText(alt, pad, width, precision, longs, c)
    requires a == (if alt then "#" else "") && w == (if width.Some? then Digits(width.value, 10) else "")
    requires p == (if precision.Some? then Digits(precision.value, 10) else "")
    requires dot == (if precision.Some? then "." else "") && l == Repeat('l', longs)
    ensures i == 1 && |fmt| >= 1 && fmt[0] == '%' && Tail(fmt, i, a + (pad + (w + (dot + (p + (l + [c]))))))
    ensures precision.Some? ==> (dot + (p + (l + [c]))) != "" && (dot + (p + (l + [c])))[0] == '.'
    ensures precision.None? ==> dot + (p + (l + [c])) == l + [c]
    ensures l + [c] != "" && (l + [c])[0] == if longs > 0 then 'l' else c
  {
    hide Digits;
    i := 1;
    var r := p + (l + [c]);
    assert precision.None? ==> r == l + [c] && dot + r == r;
    assert fmt == "%" + (a + (pad + (w + (dot + r))));
    assert fmt[1..] == a + (pad + (w + (dot + r)));
  }

  lemma SpecIs(alt: bool, pad: string, width: Option<nat>, precision: Option<nat>, longs: nat, sp2: Spec, sp3: Spec,
               sp4: Spec)
    requires width.Some? ==> width.value > 0
    requires sp2 == PLAIN.(alt := alt, padc := if pad == "0" then '0' else if pad == "-" then '-' else ' ')
    requires sp3 == if width.Some? then WithNumber(sp2, width.value) else sp2
    requires sp4 == FlagSpec(alt, pad, width, precision, 0)
    ensures sp4 == if precision.Some?
              then WithNumber(sp3.(width := if sp3.width < 0 then 0 else sp3.width), precision.value) else sp3
    ensures FlagSpec(alt, pad, width, precision, longs) == sp4.(longs := longs) && sp4.longs == 0
    ensures PLAIN.padc == ' '
  {}

  lemma AltRead(fmt: string, i: nat, args: seq<Arg>, alt: bool, a: string, rest: string, sp: Spec) returns (e: nat)
    requires Tail(fmt, i, a + rest) && a == (if alt then "#" else "") && sp == PLAIN.(alt := alt)
    ensures i <= e <= |fmt| && Flags(fmt, i, args, 0, PLAIN) == Flags(fmt, e, args, 0, sp) && Tail(fmt, e, rest)
  {
    hide Flags;
    hide Tail;
    NextPiece(fmt, i, a, rest);
    OneFlag(fmt, i, args, 0, PLAIN, '#');
    e := i + |a|;
  }

  lemma PadRead(fmt: string, i: nat, args: seq<Arg>, pad: string, rest: string, sp: Spec, sp': Spec) returns (e: nat)
    requires Tail(fmt, i, pad + rest) && (pad == "" || pad == "0" || pad == "-") && sp.padc == ' '
    requires sp' == sp.(padc := if pad == "0" then '0' else if pad == "-" then '-' else ' ')
    ensures i <= e <= |fmt| && Flags(fmt, i, args, 0, sp) == Flags(fmt, e, args, 0, sp') && Tail(fmt, e, rest)
  {
    hide Flags;
    hide Tail;
    NextPiece(fmt, i, pad, rest);
    if pad != "" { OneFlag(fmt, i, args, 0, sp, pad[0]); }
    e := i + |pad|;
  }

  lemma WidthRead(fmt: string, i: nat, args: seq<Arg>, sp: Spec, width: Option<nat>, w: string, rest: string,
                  sp': Spec) returns (e: nat)
    requires w == (if width.Some? then Digits(width.value, 10) else "") && (width.Some? ==> width.value > 0)
    requires Tail(fmt, i, w + rest) && rest != "" && rest[0] !in "0123456789"
    requires sp' == if width.Some? then WithNumber(sp, width.value) else sp
    ensures i <= e <= |fmt| && Flags(fmt, i, args, 0, sp) == Flags(fmt, e, args, 0, sp') && Tail(fmt, e, rest)
  {
    hide *;
    NextPiece(fmt, i, w, rest);
    if width.Some? { NumberFlag(fmt, i, args, 0, sp, width.value); }
    e := i + |w|;
  }

  lemma PrecisionRead(fmt: string, i: nat, args: seq<Arg>, sp: Spec, precision: Option<nat>, dot: string, p: string,
                      rest: string, sp': Spec) returns (e: nat)
    requires dot == (if precision.Some? then "." else "") && (precision.Some? ==> precision.value > 0)
    requires p == (if precision.Some? then Digits(precision.value, 10) else "")
    requires Tail(fmt, i, dot + (p + rest)) && rest != "" && rest[0] !in "0123456789"
    requires sp' == if precision.Some?
               then WithNumber(sp.(width := if sp.width < 0 then 0 else sp.width), precision.value) else sp
    ensures i <= e <= |fmt| && Flags(fmt, i, args, 0, sp) == Flags(fmt, e, args, 0, sp') && Tail(fmt, e, rest)
  {
    hide *;
    NextPiece(fmt, i, dot, p + rest);
    NextPiece(fmt, i + |dot|, p, rest);
    if precision.Some? {
      OneFlag(fmt, i, args, 0, sp, '.');
      NumberFlag(fmt, i + 1, args, 0, sp.(width := if sp.width < 0 then 0 else sp.width), precision.value);
    }
    e := i + |dot| + |p|;
  }

  /** One flag character that is no number. */
  lemma OneFlag(fmt: string, i: nat, args: seq<Arg>, k: nat, sp: Spec, c: char)
    ensures i < |fmt| && fmt[i] == c ==>
      && (c == '#' ==> Flags(fmt, i, args, k, sp) == Flags(fmt, i + 1, args, k, sp.(alt := true)))
      && (c == '0' || c == '-' ==> Flags(fmt, i, args, k, sp) == Flags(fmt, i + 1, args, k, sp.(padc := c)))
      && (c == '.' ==>
            var w := if sp.width < 0 then 0 else sp.width;
            Flags(fmt, i, args, k, sp) == Flags(fmt, i + 1, args, k, sp.(width := w)))
      && (c == 'l' ==> Flags(fmt, i, args, k, sp) == Flags(fmt, i + 1, args, k, sp.(longs := sp.longs + 1)))
  {}

  lemma LastFlag(fmt: string, i: nat, args: seq<Arg>, k: nat, sp: Spec)
    requires i < |fmt| && fmt[i] !in "-0123456789*.#l"
    ensures Flags(fmt, i, args, k, sp) == (sp, i, k)
  {}

  lemma {:induction false} LongFlags(fmt: string, i: nat, args: seq<Arg>, k: nat, sp: Spec, n: nat, c: char)
    returns (e: nat)
    requires Tail(fmt, i, Repeat('l', n) + [c])
    ensures i <= e < |fmt| && Tail(fmt, e, [c]) && fmt[e] == c
    ensures Flags(fmt, i, args, k, sp) == Flags(fmt, e, args, k, sp.(longs := sp.longs + n))
    decreases n
  {
    hide Flags;
    hide Tail;
    var l := Repeat('l', n);
    if n == 0 {
      assert l + [c] == "" + [c];
      NextPiece(fmt, i, "", [c]);
      e := i;
    } else {
      assert l + [c] == "l" + (Repeat('l', n - 1) + [c]);
      NextPiece(fmt, i, "l", Repeat('l', n - 1) + [c]);
      OneFlag(fmt, i, args, k, sp, 'l');
      e := LongFlags(fmt, i + 1, args, k, sp.(longs := sp.longs + 1), n - 1, c);
    }
  }

  /** A number in decimal. */
  lemma NumberFlag(fmt: string, i: nat, args: seq<Arg>, k: nat, sp: Spec, n: nat)
    requires n > 0 && StartsWith(fmt, i, Digits(n, 10)) && i + |Digits(n, 10)| < |fmt|
    requires fmt[i + |Digits(n, 10)|] !in "0123456789"
    ensures Flags(fmt, i, args, k, sp) == Flags(fmt, i + |Digits(n, 10)|, args, k, WithNumber(sp, n))
  {
    hide *;
    var t := Digits(n, 10);
    NumberText(n, t);
    StartsAt(fmt, i, t);
    DecimalReads(fmt, i, t, 0);
    NumberStep(fmt, i, args, k, sp, n, i + |t|);
  }

  lemma StartsAt(fmt: string, i: nat, t: string)
    requires StartsWith(fmt, i, t) && t != ""
    ensures i < |fmt| && fmt[i] == t[0]
  {
    assert fmt[i..i + |t|][0] == fmt[i];
  }

  lemma NumberText(n: nat, t: string)
    requires n > 0 && t == Digits(n, 10)
    ensures t != "" && '1' <= t[0] <= '9' && (forall m :: 0 <= m < |t| ==> '0' <= t[m] <= '9') && Value(t, 10, 0) == n
  {
    hide Digits;
    hide Place;
    hide PlaceValue;
    hide Value;
    hide LowDigit;
    DigitsAreNumeral(n, 10);
    ValueOfDigits(n, 10);
    if t == "0" { PlaceValueZero(); }
    DecimalDigits(t, n);
  }

  lemma PlaceValueZero()
    ensures PlaceValue("0", 10) == 0
  {
    PlaceMore("", '0', 10);
    assert "" + "0" == "0";
  }

  lemma NumberStep(fmt: string, i: nat, args: seq<Arg>, k: nat, sp: Spec, n: nat, e: nat)
    requires i < e < |fmt| && '1' <= fmt[i] <= '9' && Decimal(fmt, i, 0) == (n, e)
    ensures Flags(fmt, i, args, k, sp) == Flags(fmt, e, args, k, WithNumber(sp, n))
  {
    hide Decimal;
    hide WithNumber;
  }

  lemma DecimalDigits(t: string, n: nat)
    requires IsNumeral(t, 10, n) && t[0] != '0'
    ensures '1' <= t[0] <= '9' && forall m :: 0 <= m < |t| ==> '0' <= t[m] <= '9'
  {
    hide Place;
    hide PlaceValue;
    forall m | 0 <= m < |t|
      ensures '0' <= t[m] <= '9'
    {
      assert LowDigit(t[m], 10);
    }
  }

  lemma {:induction false} DecimalReads(fmt: string, i: nat, t: string, val: nat)
    requires StartsWith(fmt, i, t) && i + |t| < |fmt| && fmt[i + |t|] !in "0123456789"
    requires forall m :: 0 <= m < |t| ==> '0' <= t[m] <= '9'
    ensures Decimal(fmt, i, val) == (Value(t, 10, val), i + |t|)
    decreases |t|
  {
    if t != "" {
      assert fmt[i] == fmt[i..i + |t|][0];
      assert fmt[i + 1..i + 1 + |t[1..]|] == t[1..];
      DecimalReads(fmt, i + 1, t[1..], val * 10 + (t[0] as nat - '0' as nat));
    }
  }

  /** '*' takes the next argument as an int: for the width, or for the precision behind a point. */
  lemma StarRead(c: char, v: int, arg: Arg)
    requires c !in "-0123456789*.#l"
    ensures var n := Centred(v, 0x1_0000_0000);
      && Alone("%*" + [c], [Int(v), arg], 1, PLAIN.(width := n), c)
      && Alone("%.*" + [c], [Int(v), arg], 1, PLAIN.(width := 0, precision := n), c)
  {
    hide SignedWrap;
    hide Centred;
    var args := [Int(v), arg];
    WrapIs(v, 0);
    var n := SignedWrap(v, 0);
    LastFlag("%*" + [c], 2, args, 1, PLAIN.(width := n));
    OneFlag("%.*" + [c], 1, args, 0, PLAIN, '.');
    LastFlag("%.*" + [c], 3, args, 1, PLAIN.(width := 0, precision := n));
  }

  // ---- characters ----

  lemma CharPrinted(fmt: string, args: seq<Arg>, k: nat, sp: Spec, v: int)
    requires Alone(fmt, args, k, sp, 'c') && k < |args| && args[k] == Int(v)
    ensures Format(fmt, 0, args, 0) == [(v % 256) as char]
  {
    hide Format;
    hide Flags;
    AloneText(fmt, args, k, sp, 'c');
  }

  lemma PercentPrinted(fmt: string, args: seq<Arg>, k: nat, sp: Spec)
    requires Alone(fmt, args, k, sp, '%')
    ensures Format(fmt, 0, args, 0) == "%"
  {
    hide Format;
    hide Flags;
    AloneText(fmt, args, k, sp, '%');
  }

  /** Every other letter stands for itself, percent sign included. */
  lemma OtherPrinted(c: char, args: seq<Arg>)
    requires c !in "cesduopx%" && c !in "-0123456789*.#l" && c != '\0'
    ensures Format("%" + [c], 0, args, 0) == "%" + [c]
  {
    hide Convert;
    var fmt := "%" + [c];
    FormatStep(fmt, 0, args, 0);
    FormatStep(fmt, 1, args, 0);
    FormatStep(fmt, 2, args, 0);
  }

  // ---- strings ----

  /** The first n characters are what %s shows: up to a NUL, and no more than the precision allows if there is one. */
  ghost predicate Shown(s: string, precision: int, n: nat) {
    && n <= |s| && (forall m :: 0 <= m < n ==> s[m] != '\0') && (precision >= 0 ==> n <= precision)
    && (n < |s| && s[n] != '\0' ==> n == precision)
  }

  lemma {:induction false} LengthShown(s: string, i: nat, len: int)
    requires i <= |s| && (len < 0 || i <= len) && forall m :: 0 <= m < i ==> s[m] != '\0'
    ensures Shown(s, len, StrNLen(s, i, len))
    decreases |s| - i
  {
    if i < |s| && s[i] != '\0' && (len < 0 || i < len) { LengthShown(s, i + 1, len); }
  }

  /** %s: the characters shown, unprintable ones masked under '#', filled up to the width with the padding character on
      the left, or with blanks on the right after '-'. A null pointer has a text of its own. */
  lemma StringPrinted(fmt: string, args: seq<Arg>, k: nat, sp: Spec, s: string)
    returns (n: nat, shown: string, fill: string)
    requires Alone(fmt, args, k, sp, 's') && k < |args|
    requires args[k] == Str(s) || (args[k] == Null && s == "(null)")
    ensures Shown(s, sp.precision, n) && |shown| == n
    ensures forall m :: 0 <= m < n ==> shown[m] == if sp.alt && !(' ' <= s[m] <= '~') then '?' else s[m]
    ensures |fill| == if sp.width > n then sp.width - n else 0
    ensures forall m :: 0 <= m < |fill| ==> fill[m] == if sp.padc == '-' then ' ' else sp.padc
    ensures Format(fmt, 0, args, 0) == if sp.padc == '-' then shown + fill else fill + shown
  {
    hide Format;
    hide Flags;
    AloneText(fmt, args, k, sp, 's');
    LengthShown(s, 0, sp.precision);
    n := StrNLen(s, 0, sp.precision);
    shown := MaskAll(s[..n], sp.alt);
    fill := Repeat(if sp.padc == '-' then ' ' else sp.padc, sp.width - n);
    hide StrNLen;
    hide MaskAll;
    assert Convert('s', sp, args, k) == StrText(s, sp);
    assert sp.width <= 0 ==> Repeat(' ', sp.width - n) == fill == "";
  }

  /** In particular a plain %s prints its argument. */
  lemma PlainString(s: string)
    requires forall m :: 0 <= m < |s| ==> s[m] != '\0'
    ensures Format("%s", 0, [Str(s)], 0) == s
  {
    hide Format;
    var n, shown, fill := StringPrinted("%s", [Str(s)], 0, PLAIN, s);
    assert shown == s && fill == "";
  }

  // ---- numbers ----

  /** The two's complement value of v at m = 2^32 or 2^64. */
  function Centred(v: int, m: nat): int
    requires m > 0
  {
    (v + m / 2) % m - m / 2
  }

  function Modulus(longs: nat): nat {
    if longs == 0 then 0x1_0000_0000 else 0x1_0000_0000_0000_0000
  }

  lemma WrapIs(v: int, longs: nat)
    ensures Wrap(v, longs) == v % Modulus(longs) && SignedWrap(v, longs) == Centred(v, Modulus(longs))
  {
    hide Centred;
    if longs == 0 { Centre32(v); } else { Centre64(v); }
  }

  lemma Centre32(v: int)
    ensures var m := 0x1_0000_0000; var u := v % m; Centred(v, m) == if u < m / 2 then u else u - m
  {
    var m := 0x1_0000_0000;
    var q, u := v / m, v % m;
    assert v + m / 2 == q * m + (u + m / 2);
    assert u >= m / 2 ==> v + m / 2 == (q + 1) * m + (u - m / 2);
  }

  lemma Centre64(v: int)
    ensures var m := 0x1_0000_0000_0000_0000; var u := v % m; Centred(v, m) == if u < m / 2 then u else u - m
  {
    var m := 0x1_0000_0000_0000_0000;
    var q, u := v / m, v % m;
    assert v + m / 2 == q * m + (u + m / 2);
    assert u >= m / 2 ==> v + m / 2 == (q + 1) * m + (u - m / 2);
  }

  /** The usual numeral of n, behind as many padding characters as the width asks for. */
  ghost predicate Padded(t: string, fill: string, digits: string, sp: Spec, base: nat, n: nat)
    requires base <= 16
  {
    && t == fill + digits && IsNumeral(digits, base, n)
    && |fill| == (if sp.width > |digits| then sp.width - |digits| else 0)
    && forall m :: 0 <= m < |fill| ==> fill[m] == sp.padc
  }

  lemma TextPadded(num: nat, base: nat, sp: Spec) returns (fill: string, digits: string)
    requires 2 <= base <= 16
    ensures Padded(NumText(num, base, sp.width, sp.padc), fill, digits, sp, base, num)
  {
    hide IsNumeral;
    hide Digits;
    hide Repeat;
    digits := Digits(num, base);
    fill := Repeat(sp.padc, sp.width - |digits|);
    DigitsAreNumeral(num, base);
  }

  /** %u, %o and %x: the argument modulo 2^32, or 2^64 after an 'l'. */
  lemma UnsignedPrinted(fmt: string, args: seq<Arg>, k: nat, sp: Spec, c: char, v: int)
    returns (fill: string, digits: string)
    requires Alone(fmt, args, k, sp, c) && k < |args| && args[k] == Int(v) && (c == 'u' || c == 'o' || c == 'x')
    ensures Padded(Format(fmt, 0, args, 0), fill, digits, sp, if c == 'u' then 10 else if c == 'o' then 8 else 16,
                   v % if sp.longs == 0 then 0x1_0000_0000 else 0x1_0000_0000_0000_0000)
  {
    hide Format;
    hide Flags;
    hide NumText;
    hide Padded;
    AloneText(fmt, args, k, sp, c);
    WrapIs(v, sp.longs);
    hide Wrap;
    fill, digits := TextPadded(Wrap(v, sp.longs), if c == 'u' then 10 else if c == 'o' then 8 else 16, sp);
  }

  /** %d: the sign first, then the padding, then the digits. */
  lemma SignedPrinted(fmt: string, args: seq<Arg>, k: nat, sp: Spec, v: int)
    returns (sign: string, rest: string, fill: string, digits: string)
    requires Alone(fmt, args, k, sp, 'd') && k < |args| && args[k] == Int(v)
    ensures var x := Centred(v, if sp.longs == 0 then 0x1_0000_0000 else 0x1_0000_0000_0000_0000);
      && Format(fmt, 0, args, 0) == sign + rest && sign == (if x < 0 then "-" else "")
      && Padded(rest, fill, digits, sp, 10, if x < 0 then -x else x)
  {
    hide Format;
    hide Flags;
    hide NumText;
    hide Padded;
    hide Wrap;
    hide SignedWrap;
    hide Centred;
    hide StrText;
    hide ErrText;
    AloneText(fmt, args, k, sp, 'd');
    WrapIs(v, sp.longs);
    var x := SignedWrap(v, sp.longs);
    var num: nat := if x < 0 then -x else x;
    fill, digits := TextPadded(num, 10, sp);
    sign, rest := if x < 0 then "-" else "", NumText(num, 10, sp.width, sp.padc);
  }

  /** %p: "0x" and the 64 bits in hexadecimal. */
  lemma PointerPrinted(fmt: string, args: seq<Arg>, k: nat, sp: Spec, v: int)
    returns (rest: string, fill: string, digits: string)
    requires Alone(fmt, args, k, sp, 'p') && k < |args| && args[k] == Int(v)
    ensures Format(fmt, 0, args, 0) == "0x" + rest
    ensures Padded(rest, fill, digits, sp, 16, v % 0x1_0000_0000_0000_0000)
  {
    hide Format;
    hide Flags;
    hide NumText;
    hide Padded;
    AloneText(fmt, args, k, sp, 'p');
    WrapIs(v, 1);
    hide Wrap;
    rest := NumText(Wrap(v, 1), 16, sp.width, sp.padc);
    fill, digits := TextPadded(Wrap(v, 1), 16, sp);
  }

  // ---- error codes ----

  /** The messages by error number; those without one are empty. */
  function Messages(): seq<string> {
    ["", "unspecified error", "bad process", "invalid parameter", "out of memory", "out of processes",
     "segmentation fault", "", "invalid elf file", "process is killed", "panic failure", "", "", "no such device",
     "device not available", "device/file is busy", "no such file or directory", "is a directory", "not a directory",
     "cross device link", "unimplemented feature", "illegal seek", "too many files are open",
     "file or directory already exists", "directory is not empty"]
  }

  lemma MessageOf(err: nat)
    ensures |Messages()| == 25 && ErrorString(err) == if err < 25 then Messages()[err] else ""
  {}

  /** %e: the message of the error, whichever sign its number has, or the number. */
  lemma ErrorPrinted(fmt: string, args: seq<Arg>, k: nat, sp: Spec, v: int) returns (digits: string)
    requires Alone(fmt, args, k, sp, 'e') && k < |args| && args[k] == Int(v)
    ensures var x := Centred(v, 0x1_0000_0000);
      var err := if x < 0 then -x else x;
      && IsNumeral(digits, 10, err) && |Messages()| == 25
      && Format(fmt, 0, args, 0) == if err < 25 && Messages()[err] != "" then Messages()[err] else "error " + digits
  {
    hide Format;
    hide Flags;
    hide Messages;
    hide ErrorString;
    hide IsNumeral;
    hide Digits;
    AloneText(fmt, args, k, sp, 'e');
    WrapIs(v, 0);
    hide SignedWrap;
    hide Centred;
    var x := SignedWrap(v, 0);
    var err: nat := if x < 0 then -x else x;
    MessageOf(err);
    DigitsAreNumeral(err, 10);
    digits := Digits(err, 10);
    assert NumText(err, 10, -1, ' ') == "" + digits;
  }

  // ---- escapes and text one after the other ----

  /** Behind j of g stands what stands behind i of f, and then `rest`. */
  ghost predicate Same(f: string, i: nat, rest: string, g: string, j: nat) {
    i <= |f| && j <= |g| && g[j..] == f[i..] + rest
  }

  lemma SameNext(f: string, i: nat, rest: string, g: string, j: nat)
    requires Same(f, i, rest, g, j)
    ensures i < |f| ==> j < |g| && g[j] == f[i] && Same(f, i + 1, rest, g, j + 1)
    ensures i < |f| || rest == "" ==> At(g, j) == At(f, i)
  {
    if i < |f| {
      assert g[j] == g[j..][0] == f[i..][0];
      assert g[j + 1..] == g[j..][1..] == f[i..][1..] + rest;
    } else if rest == "" {
      assert |g[j..]| == 0;
    }
  }

  lemma {:induction false} DecimalSame(f: string, i: nat, rest: string, g: string, j: nat, val: nat)
    requires Same(f, i, rest, g, j) && (Decimal(f, i, val).1 < |f| || rest == "")
    ensures Decimal(g, j, val) == (Decimal(f, i, val).0, Decimal(f, i, val).1 - i + j)
    ensures Same(f, Decimal(f, i, val).1, rest, g, Decimal(g, j, val).1)
    decreases |f| - i
  {
    hide Same;
    SameRange(f, i, rest, g, j);
    SameNext(f, i, rest, g, j);
    if i < |f| && '0' <= f[i] <= '9' {
      DecimalSame(f, i + 1, rest, g, j + 1, val * 10 + (f[i] as nat - '0' as nat));
    }
  }

  lemma SameRange(f: string, i: nat, rest: string, g: string, j: nat)
    requires Same(f, i, rest, g, j)
    ensures i <= |f| && j <= |g|
  {}

  /** The step that one flag character other than a number makes. */
  lemma FlagStep(f: string, i: nat, args: seq<Arg>, k: nat, sp: Spec)
    requires i <= |f| && !('1' <= At(f, i) <= '9')
    ensures !IsFlag(At(f, i)) ==> Flags(f, i, args, k, sp) == (sp, i, k)
    ensures IsFlag(At(f, i)) ==> i < |f|
    ensures IsFlag(At(f, i)) ==>
      (var n := NextFlag(At(f, i), IntArg(args, k), k, sp); Flags(f, i, args, k, sp) == Flags(f, i + 1, args, n.1, n.0))
  {}

  function NextFlag(c: char, arg: int, k: nat, sp: Spec): (Spec, nat) {
    if c == '-' || c == '0' then (sp.(padc := c), k)
    else if c == '*' then (WithNumber(sp, SignedWrap(arg, 0)), k + 1)
    else if c == '.' then (if sp.width < 0 then sp.(width := 0) else sp, k)
    else if c == '#' then (sp.(alt := true), k)
    else (sp.(longs := sp.longs + 1), k)
  }

  lemma NumberSteps(f: string, i: nat, args: seq<Arg>, k: nat, sp: Spec)
    requires i <= |f| && '1' <= At(f, i) <= '9'
    ensures var n := Decimal(f, i, 0);
      i < n.1 <= |f| && Flags(f, i, args, k, sp) == Flags(f, n.1, args, k, WithNumber(sp, n.0))
  {
    DecimalSpan(f, i, 0);
    hide Decimal;
    hide WithNumber;
  }

  /** The flags behind j of g are read like those behind i of f, whose arguments are the others from the u-th on. */
  lemma {:induction false} FlagsSame(f: string, i: nat, args: seq<Arg>, k: nat, rest: string, g: string, j: nat,
                                     all: seq<Arg>, u: nat, sp: Spec)
    requires Same(f, i, rest, g, j) && u <= |all| && args == all[u..]
    requires Flags(f, i, args, k, sp).1 < |f| || rest == ""
    ensures var (s, e, n) := Flags(f, i, args, k, sp); Flags(g, j, all, u + k, sp) == (s, e - i + j, u + n)
    ensures var (s, e, n) := Flags(f, i, args, k, sp); e >= i && Same(f, e, rest, g, e - i + j)
    decreases |f| - i
  {
    hide *;
    SameRange(f, i, rest, g, j);
    SameNext(f, i, rest, g, j);
    FlagsEnd(f, i, args, k, sp);
    if '1' <= At(f, i) <= '9' {
      NumberSteps(f, i, args, k, sp);
      NumberSteps(g, j, all, u + k, sp);
      DecimalSame(f, i, rest, g, j, 0);
      var n := Decimal(f, i, 0);
      FlagsSame(f, n.1, args, k, rest, g, Decimal(g, j, 0).1, all, u, WithNumber(sp, n.0));
    } else {
      FlagStep(f, i, args, k, sp);
      FlagStep(g, j, all, u + k, sp);
      if IsFlag(At(f, i)) {
        ArgSame(args, k, all, u);
        var n := NextFlag(At(f, i), IntArg(args, k), k, sp);
        NextSame(At(f, i), IntArg(args, k), k, u, sp);
        FlagsSame(f, i + 1, args, n.1, rest, g, j + 1, all, u, n.0);
      }
    }
  }

  lemma FlagsEnd(f: string, i: nat, args: seq<Arg>, k: nat, sp: Spec)
    requires i <= |f|
    ensures i == |f| ==> !IsFlag(At(f, i)) && !('1' <= At(f, i) <= '9') && Flags(f, i, args, k, sp) == (sp, i, k)
  {}

  lemma NextSame(c: char, arg: int, k: nat, u: nat, sp: Spec)
    ensures var n := NextFlag(c, arg, k, sp); NextFlag(c, arg, u + k, sp) == (n.0, u + n.1)
  {
    hide SignedWrap;
    hide WithNumber;
  }

  lemma ArgSame(args: seq<Arg>, k: nat, all: seq<Arg>, u: nat)
    requires u <= |all| && args == all[u..]
    ensures IntArg(all, u + k) == IntArg(args, k) && StrArg(all, u + k) == StrArg(args, k)
  {}

  lemma ConvertSame(c: char, sp: Spec, args: seq<Arg>, k: nat, all: seq<Arg>, u: nat)
    requires IsConversion(c) && u <= |all| && args == all[u..]
    ensures Convert(c, sp, all, u + k) == Convert(c, sp, args, k)
  {
    hide IntArg;
    hide StrArg;
    hide NumText;
    hide DecText;
    hide StrText;
    hide ErrText;
    ArgSame(args, k, all, u);
  }

  /** What stands behind j of g is printed like a format of its own, on the arguments from the u-th on. */
  lemma {:induction false} FormatSame(f: string, i: nat, args: seq<Arg>, k: nat, g: string, j: nat,
                                      all: seq<Arg>, u: nat)
    requires Same(f, i, "", g, j) && u <= |all| && args == all[u..]
    ensures j <= |g| && i <= |f| && Format(g, j, all, u + k) == Format(f, i, args, k)
    decreases |f| - i
  {
    hide *;
    SameRange(f, i, "", g, j);
    SameNext(f, i, "", g, j);
    FormatStep(f, i, args, k);
    FormatStep(g, j, all, u + k);
    if At(f, i) == '\0' {
    } else if At(f, i) != '%' {
      FormatSame(f, i + 1, args, k, g, j + 1, all, u);
    } else {
      FlagsSame(f, i + 1, args, k, "", g, j + 1, all, u, PLAIN);
      var (sp, e, n) := Flags(f, i + 1, args, k, PLAIN);
      SameNext(f, e, "", g, e - i + j);
      if IsConversion(At(f, e)) {
        ConvertSame(At(f, e), sp, args, n, all, u);
        FormatSame(f, e + 1, args, if At(f, e) == '%' then n else n + 1, g, e - i + j + 1, all, u);
      } else {
        FormatSame(f, i + 1, args, n, g, j + 1, all, u);
      }
    }
  }

  /** An escape in front of any format prints what it prints alone; the format then goes on with the arguments that are
      left. */
  lemma EscapeThen(fmt: string, rest: string, args: seq<Arg>, k: nat, sp: Spec, c: char)
    requires Alone(fmt, args, k, sp, c) && IsConversion(c) && k + (if c == '%' then 0 else 1) <= |args|
    ensures var used := k + if c == '%' then 0 else 1;
      Format(fmt + rest, 0, args, 0) == Format(fmt, 0, args, 0) + Format(rest, 0, args[used..], 0)
  {
    hide Flags;
    hide Format;
    hide Convert;
    var g, used := fmt + rest, k + if c == '%' then 0 else 1;
    assert g[1..] == fmt[1..] + rest;
    assert args == args[0..];
    FlagsSame(fmt, 1, args, 0, rest, g, 1, args, 0, PLAIN);
    FormatStep(g, 0, args, 0);
    AloneText(fmt, args, k, sp, c);
    assert g[|fmt|..] == rest[0..] + "";
    FormatSame(rest, 0, args[used..], 0, g, |fmt|, args, used);
  }

  /** So does text without percent signs or NULs. */
  lemma TextThen(text: string, rest: string, args: seq<Arg>)
    requires forall m :: 0 <= m < |text| ==> text[m] != '%' && text[m] != '\0'
    ensures Format(text + rest, 0, args, 0) == text + Format(rest, 0, args, 0)
  {
    hide Format;
    var g := text + rest;
    Literal(g, 0, |text|, args, 0);
    assert g[0..|text|] == text;
    assert g[|text|..] == rest[0..] + "";
    assert args == args[0..];
    FormatSame(rest, 0, args, 0, g, |text|, args, 0);
  }
}
