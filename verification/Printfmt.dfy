/** The format interpreter vprintfmt, and vsnprintf on top of it. */
module Printfmt {
  import opened Numbers

  const E_INVAL := 3
  const MAXERROR := 24

  /** An argument as va_arg fetches it: an integer (or pointer) bit pattern, a string, or a null pointer. */
  datatype Arg = Int(v: int) | Str(s: string) | Null

  /** What the flags of one escape have set. */
  datatype Spec = Spec(width: int, precision: int, padc: char, longs: nat, alt: bool)

  const PLAIN := Spec(-1, -1, ' ', 0, false)

  // Reading an argument that is missing or of another kind is undefined in C; here it reads as zero.
  function IntArg(args: seq<Arg>, k: nat): int {
    if k < |args| && args[k].Int? then args[k].v else 0
  }

  function StrArg(args: seq<Arg>, k: nat): string {
    if k < |args| && args[k].Str? then args[k].s else "(null)"
  }

  /** An int or a long, by the number of l flags: two's complement at 32 or 64 bits. */
  function Wrap(v: int, longs: nat): (u: nat)
    ensures u < (if longs == 0 then 0x1_0000_0000 else 0x1_0000_0000_0000_0000)
  {
    if longs == 0 then v % 0x1_0000_0000 else v % 0x1_0000_0000_0000_0000
  }

  function SignedWrap(v: int, longs: nat): (i: int)
    ensures (if longs == 0 then -0x8000_0000 <= v < 0x8000_0000
             else -0x8000_0000_0000_0000 <= v < 0x8000_0000_0000_0000) ==> i == v
  {
    var u := Wrap(v, longs);
    var m := if longs == 0 then 0x1_0000_0000 else 0x1_0000_0000_0000_0000;
    if u < m / 2 then u else u - m
  }

  function ErrorString(err: nat): string {
    if err == 1 then "unspecified error"
    else if err == 2 then "bad process"
    else if err == 3 then "invalid parameter"
    else if err == 4 then "out of memory"
    else if err == 5 then "out of processes"
    else if err == 6 then "segmentation fault"
    else if err == 8 then "invalid elf file"
    else if err == 9 then "process is killed"
    else if err == 10 then "panic failure"
    else if err == 13 then "no such device"
    else if err == 14 then "device not available"
    else if err == 15 then "device/file is busy"
    else if err == 16 then "no such file or directory"
    else if err == 17 then "is a directory"
    else if err == 18 then "not a directory"
    else if err == 19 then "cross device link"
    else if err == 20 then "unimplemented feature"
    else if err == 21 then "illegal seek"
    else if err == 22 then "too many files are open"
    else if err == 23 then "file or directory already exists"
    else if err == 24 then "directory is not empty"
    else ""
  }

  // ---- the meaning of a format ----

  predicate IsFlag(c: char) {
    c == '-' || '0' <= c <= '9' || c == '*' || c == '.' || c == '#' || c == 'l'
  }

  predicate IsConversion(c: char) {
    c == 'c' || c == 'e' || c == 's' || c == 'd' || c == 'u' || c == 'o' || c == 'p' || c == 'x' || c == '%'
  }

  /** The decimal number that starts at i, after `val`, and where it ends. */
  function Decimal(fmt: string, i: nat, val: nat): (r: (nat, nat))
    requires i <= |fmt|
    ensures i <= r.1 <= |fmt|
    decreases |fmt| - i
  {
    if i < |fmt| && '0' <= fmt[i] <= '9' then Decimal(fmt, i + 1, val * 10 + (fmt[i] as nat - '0' as nat))
    else (val, i)
  }

  /** A number is the field width unless that is set already; then it is the precision. */
  function WithNumber(sp: Spec, n: int): Spec {
    if sp.width < 0 then sp.(width := n, precision := -1) else sp.(precision := n)
  }

  /** The escape's flags: their effect, the position of the conversion character, the next argument. */
  function Flags(fmt: string, i: nat, args: seq<Arg>, k: nat, sp: Spec): (r: (Spec, nat, nat))
    requires i <= |fmt|
    ensures i <= r.1 <= |fmt| && !IsFlag(At(fmt, r.1))
    ensures forall m :: i <= m < r.1 ==> IsFlag(fmt[m])
    decreases |fmt| - i
  {
    var c := At(fmt, i);
    if c == '-' then Flags(fmt, i + 1, args, k, sp.(padc := '-'))
    else if c == '0' then Flags(fmt, i + 1, args, k, sp.(padc := '0'))
    else if '1' <= c <= '9' then
      var n := Decimal(fmt, i, 0);
      DecimalSpan(fmt, i, 0);
      Flags(fmt, n.1, args, k, WithNumber(sp, n.0))
    else if c == '*' then Flags(fmt, i + 1, args, k + 1, WithNumber(sp, SignedWrap(IntArg(args, k), 0)))
    else if c == '.' then Flags(fmt, i + 1, args, k, if sp.width < 0 then sp.(width := 0) else sp)
    else if c == '#' then Flags(fmt, i + 1, args, k, sp.(alt := true))
    else if c == 'l' then Flags(fmt, i + 1, args, k, sp.(longs := sp.longs + 1))
    else (sp, i, k)
  }

  lemma {:induction false} DecimalSpan(fmt: string, i: nat, val: nat)
    requires i <= |fmt|
    ensures '0' <= At(fmt, i) <= '9' ==> i < Decimal(fmt, i, val).1
    ensures forall m :: i <= m < Decimal(fmt, i, val).1 ==> IsFlag(fmt[m])
    decreases |fmt| - i
  {
    if i < |fmt| && '0' <= fmt[i] <= '9' {
      DecimalSpan(fmt, i + 1, val * 10 + (fmt[i] as nat - '0' as nat));
    }
  }

  /** strnlen: the length of s up to a NUL, at most `len` when that is not negative. */
  function StrNLen(s: string, i: nat, len: int): (n: nat)
    requires i <= |s|
    ensures i <= n <= |s| && (0 <= i <= len ==> n <= len)
    ensures forall m :: i <= m < n ==> s[m] != '\0'
    ensures n < |s| && s[n] != '\0' ==> 0 <= len <= n
    decreases |s| - i
  {
    if i < |s| && s[i] != '\0' && (len < 0 || i < len) then StrNLen(s, i + 1, len) else i
  }

  function Masked(c: char, alt: bool): char {
    if alt && (c < ' ' || c > '~') then '?' else c
  }

  function MaskAll(s: string, alt: bool): (r: string)
    ensures |r| == |s|
  {
    seq(|s|, i requires 0 <= i < |s| => Masked(s[i], alt))
  }

  /** %s: at most `precision` characters, padded on the left, or on the right with blanks after '-'. */
  function StrText(s: string, sp: Spec): string {
    var shown := MaskAll(s[..StrNLen(s, 0, sp.precision)], sp.alt);
    if sp.width > 0 && sp.padc != '-' then Repeat(sp.padc, sp.width - |shown|) + shown
    else shown + Repeat(' ', sp.width - |shown|)
  }

  function ErrText(v: int): string {
    var err: nat := var e := SignedWrap(v, 0); if e < 0 then -e else e;
    if ErrorString(err) == "" then "error " + NumText(err, 10, -1, ' ') else ErrorString(err)
  }

  /** What one conversion prints, from argument k on. */
  function Convert(c: char, sp: Spec, args: seq<Arg>, k: nat): string
    requires IsConversion(c)
  {
    var v := IntArg(args, k);
    match c
    case 'c' => [(v % 256) as char]
    case 'e' => ErrText(v)
    case 's' => StrText(StrArg(args, k), sp)
    case 'd' => DecText(SignedWrap(v, sp.longs), sp.width, sp.padc)
    case 'u' => NumText(Wrap(v, sp.longs), 10, sp.width, sp.padc)
    case 'o' => NumText(Wrap(v, sp.longs), 8, sp.width, sp.padc)
    case 'p' => "0x" + NumText(Wrap(v, 1), 16, sp.width, sp.padc)
    case 'x' => NumText(Wrap(v, sp.longs), 16, sp.width, sp.padc)
    case _ => "%"
  }

  /** The whole output of a format from position i and argument k on. An escape whose conversion character is
      unknown prints only its percent sign; what follows it is read again as ordinary text. */
  function Format(fmt: string, i: nat, args: seq<Arg>, k: nat): string
    requires i <= |fmt|
    decreases |fmt| - i
  {
    var c := At(fmt, i);
    if c == '\0' then ""
    else if c != '%' then [c] + Format(fmt, i + 1, args, k)
    else
      var (sp, j, k') := Flags(fmt, i + 1, args, k, PLAIN);
      var d := At(fmt, j);
      if IsConversion(d) then
        Convert(d, sp, args, k') + Format(fmt, j + 1, args, if d == '%' then k' else k' + 1)
      else "%" + Format(fmt, i + 1, args, k')
  }

  /** Text without percent signs or NULs is printed as it stands. */
  lemma {:induction false} Literal(fmt: string, i: nat, j: nat, args: seq<Arg>, k: nat)
    requires i <= j <= |fmt| && forall m :: i <= m < j ==> fmt[m] != '%' && fmt[m] != '\0'
    ensures Format(fmt, i, args, k) == fmt[i..j] + Format(fmt, j, args, k)
    decreases j - i
  {
    hide Convert;
    hide Flags;
    if i < j {
      Literal(fmt, i + 1, j, args, k);
      assert fmt[i..j] == [fmt[i]] + fmt[i + 1..j];
    } else {
      assert fmt[i..j] == [];
    }
  }

  /** An unrecognised escape is echoed verbatim, its flags and its conversion character included; one that the
      format's end cuts short is echoed to the end. */
  lemma UnknownEchoed(fmt: string, i: nat, args: seq<Arg>, k: nat)
    requires At(fmt, i) == '%' && !IsConversion(At(fmt, Flags(fmt, i + 1, args, k, PLAIN).1))
    ensures var (_, j, k') := Flags(fmt, i + 1, args, k, PLAIN);
            Format(fmt, i, args, k) ==
              if At(fmt, j) == '\0' then fmt[i..j] else fmt[i..j + 1] + Format(fmt, j + 1, args, k')
  {
    hide *;
    var (_, j, k') := Flags(fmt, i + 1, args, k, PLAIN);
    var e := if At(fmt, j) == '\0' then j else j + 1;
    UnknownStep(fmt, i, args, k);
    Literal(fmt, i + 1, e, args, k');
    assert fmt[i..e] == "%" + fmt[i + 1..e];
  }

  lemma UnknownStep(fmt: string, i: nat, args: seq<Arg>, k: nat)
    requires At(fmt, i) == '%' && !IsConversion(At(fmt, Flags(fmt, i + 1, args, k, PLAIN).1))
    ensures i < |fmt| && fmt[i] == '%'
    ensures var (_, j, k') := Flags(fmt, i + 1, args, k, PLAIN);
            var e := if At(fmt, j) == '\0' then j else j + 1;
            && e <= |fmt| && (forall m :: i < m < e ==> fmt[m] != '%' && fmt[m] != '\0')
            && Format(fmt, i, args, k) == "%" + Format(fmt, i + 1, args, k')
            && (At(fmt, j) == '\0' ==> Format(fmt, e, args, k') == "")
  {
    hide Convert;
    hide Flags;
  }

  /** The format is one escape with whatever flags, and v is the argument left for it when the '*' widths have taken
      theirs. */
  ghost predicate OneEscape(fmt: string, args: seq<Arg>, k: nat, v: int, sp: Spec, c: char) {
    && At(fmt, 0) == '%' && Flags(fmt, 1, args, 0, PLAIN) == (sp, |fmt| - 1, k) && c == fmt[|fmt| - 1]
    && IsConversion(c) && c != '%' && k < |args| && args[k] == Int(v)
  }

  lemma OneEscapeText(fmt: string, args: seq<Arg>, k: nat, v: int, sp: Spec, c: char)
    requires OneEscape(fmt, args, k, v, sp, c)
    ensures Format(fmt, 0, args, 0) == Convert(c, sp, args, k)
  {
    hide Convert;
    hide Flags;
    FormatStep(fmt, 0, args, 0);
    FormatStep(fmt, |fmt|, args, k + 1);
  }

  function BaseOf(c: char): nat {
    if c == 'o' then 8 else if c == 'x' then 16 else 10
  }

  lemma UnsignedText(sp: Spec, c: char, args: seq<Arg>, k: nat, v: nat)
    requires (c == 'u' || c == 'o' || c == 'x') && k < |args| && args[k] == Int(v)
    requires v < (if sp.longs == 0 then 0x1_0000_0000 else 0x8000_0000_0000_0000)
    ensures Convert(c, sp, args, k) == NumText(v, BaseOf(c), sp.width, sp.padc)
  {
    hide NumText;
    hide Wrap;
    WrapSmall(v, sp.longs);
  }

  lemma WrapSmall(v: nat, longs: nat)
    requires v < (if longs == 0 then 0x1_0000_0000 else 0x1_0000_0000_0000_0000)
    ensures Wrap(v, longs) == v
  {}

  /** Whatever the width, a number printed by %u, %o or %x reads back with strtol in the same base, unless the
      '-' flag was given; it only has to fit the size that the l flags name, and a long. */
  lemma UnsignedReadsBack(fmt: string, args: seq<Arg>, k: nat, v: nat, sp: Spec, c: char)
    requires OneEscape(fmt, args, k, v, sp, c) && (c == 'u' || c == 'o' || c == 'x')
    requires v < (if sp.longs == 0 then 0x1_0000_0000 else 0x8000_0000_0000_0000)
    requires sp.padc == '0' || sp.padc == ' '
    ensures StrtolOf(Format(fmt, 0, args, 0), BaseOf(c)) == (v, |Format(fmt, 0, args, 0)|)
  {
    hide StrtolOf;
    hide Format;
    hide Convert;
    hide Flags;
    hide NumText;
    OneEscapeText(fmt, args, k, v, sp, c);
    UnsignedText(sp, c, args, k, v);
    BaseRange(c);
    RoundTrip(v, BaseOf(c), sp.width, sp.padc);
  }

  lemma BaseRange(c: char)
    ensures BaseOf(c) == 8 || BaseOf(c) == 10 || BaseOf(c) == 16
  {}

  /** A signed number reads back when it is padded with zeros or not padded. */
  lemma SignedReadsBack(fmt: string, args: seq<Arg>, k: nat, v: int, sp: Spec)
    requires OneEscape(fmt, args, k, v, sp, 'd') && (sp.padc == '0' || sp.width <= 0)
    requires if sp.longs == 0 then -0x8000_0000 <= v < 0x8000_0000
             else -0x8000_0000_0000_0000 < v < 0x8000_0000_0000_0000
    ensures var text := Format(fmt, 0, args, 0); StrtolOf(text, 10) == (v, |text|)
  {
    hide DecText;
    hide StrtolOf;
    hide Flags;
    OneEscapeText(fmt, args, k, v, sp, 'd');
    SignedRoundTrip(v, sp.width, sp.padc);
  }

  /** One step of the interpreter. */
  lemma FormatStep(fmt: string, i: nat, args: seq<Arg>, k: nat)
    requires i <= |fmt|
    ensures At(fmt, i) == '\0' ==> Format(fmt, i, args, k) == ""
    ensures At(fmt, i) != '\0' ==> i < |fmt|
    ensures At(fmt, i) != '\0' && At(fmt, i) != '%' ==>
              Format(fmt, i, args, k) == [At(fmt, i)] + Format(fmt, i + 1, args, k)
    ensures At(fmt, i) == '%' ==>
              var (sp, j, k') := Flags(fmt, i + 1, args, k, PLAIN);
              var d := At(fmt, j);
              if IsConversion(d) then
                j < |fmt| && Format(fmt, i, args, k) ==
                  Convert(d, sp, args, k') + Format(fmt, j + 1, args, if d == '%' then k' else k' + 1)
              else Format(fmt, i, args, k) == "%" + Format(fmt, i + 1, args, k')
  {
    hide Convert;
    hide Flags;
  }

  /** The recursion of printnum. */
  lemma NumTextStep(num: nat, base: nat, width: int, padc: char)
    requires 2 <= base <= 16
    ensures 0 <= num % base < |DIGITS|
    ensures NumText(num, base, width, padc) == (if num >= base then NumText(num / base, base, width - 1, padc)
                                                else Repeat(padc, width - 1)) + [DIGITS[num % base]]
  {
    hide *;
    DivideStep(num, base);
    LastDigit(num, base);
    var front := if num >= base then Digits(num / base, base) else [];
    TextParts(num, base, width, padc);
    if num >= base { TextParts(num / base, base, width - 1, padc); }
    assert Repeat(padc, width - |front| - 1) + (front + [DIGITS[num % base]]) ==
      (Repeat(padc, width - |front| - 1) + front) + [DIGITS[num % base]];
    assert |[DIGITS[num % base]]| == 1;
  }

  lemma LastDigit(num: nat, base: nat)
    requires 2 <= base <= 16
    ensures num % base < |DIGITS| && |Digits(num, base)| == 1 + if num >= base then |Digits(num / base, base)| else 0
    ensures Digits(num, base) == (if num >= base then Digits(num / base, base) else []) + [DIGITS[num % base]]
  {
    DivideStep(num, base);
  }

  lemma TextParts(num: nat, base: nat, width: int, padc: char)
    requires 2 <= base <= 16
    ensures NumText(num, base, width, padc) == Repeat(padc, width - |Digits(num, base)|) + Digits(num, base)
  {}

  lemma ShownNext(p: string, len: nat, i: nat, alt: bool)
    requires i < len <= |p|
    ensures MaskAll(p[..len], alt)[..i + 1] == MaskAll(p[..len], alt)[..i] + [Masked(p[i], alt)]
  {
    hide Masked;
  }

  lemma ErrCases(v: int, err: nat)
    requires err == if SignedWrap(v, 0) < 0 then -SignedWrap(v, 0) else SignedWrap(v, 0)
    ensures err > MAXERROR ==> ErrorString(err) == ""
    ensures ErrText(v) == if ErrorString(err) == "" then "error " + NumText(err, 10, -1, ' ') else ErrorString(err)
  {
    hide SignedWrap;
    hide NumText;
  }

  // ---- the code ----

  /** struct sprintbuf over the caller's buffer: `pos` is the next place, `end` the place kept for the NUL. */
  class SprintBuf {
    const buf: array<char>
    const end: nat
    var pos: nat
    var cnt: nat
    ghost var out: string
    ghost const before: string

    /** All that was put is counted, its first `end` characters are stored, nothing else is touched. */
    ghost predicate Valid()
      reads this, buf
    {
      && pos <= end < buf.Length == |before| && cnt == |out| && pos == (if cnt < end then cnt else end)
      && buf[..pos] == out[..pos] && buf[pos..] == before[pos..]
    }

    constructor (str: array<char>, size: nat)
      requires 0 < size <= str.Length
      ensures Valid() && buf == str && end == size - 1 && out == "" && before == str[..]
    {
      buf, end, pos, cnt, out, before := str, size - 1, 0, 0, "", str[..];
    }

    /** sprintputch */
    method Putch(c: char)
      requires Valid()
      modifies this, buf
      ensures Valid() && out == old(out) + [c]
    {
      ghost var n, was, text := pos, buf[..], out;
      cnt := cnt + 1;
      out := out + [c];
      if pos < end {
        buf[pos] := c;
        pos := pos + 1;
        assert buf[..] == was[n := c];
        assert buf[..n + 1] == was[..n] + [c] && out[..n + 1] == text[..n] + [c];
        assert buf[n + 1..] == was[n..][1..] && before[n + 1..] == before[n..][1..];
      } else {
        assert out[..n] == text[..n];
      }
    }

    /** The closing NUL of vsnprintf. */
    method Terminate()
      requires Valid()
      modifies buf
      ensures var n := if |out| < end then |out| else end;
              n < |before| && buf[..] == out[..n] + ['\0'] + before[n + 1..] && cnt == |out|
    {
      ghost var n := pos;
      buf[pos] := '\0';
      assert buf[n + 1..] == before[n + 1..];
      assert buf[..] == buf[..n] + [buf[n]] + buf[n + 1..];
    }

    /** The characters of a text: what the calls back into printfmt print for their literal parts. */
    method PutAll(s: string)
      requires Valid()
      modifies this, buf
      ensures Valid() && out == old(out) + s
    {
      hide Valid;
      for i := 0 to |s|
        invariant Valid() && out == old(out) + s[..i]
      {
        Putch(s[i]);
        assert s[..i + 1] == s[..i] + [s[i]];
      }
      assert s[..|s|] == s;
    }

    /** The loops that put one character n times. */
    method Pad(c: char, n: int)
      requires Valid()
      modifies this, buf
      ensures Valid() && out == old(out) + Repeat(c, n)
    {
      hide Valid;
      var width := n;
      while width > 0
        invariant Valid() && width <= n && out + Repeat(c, width) == old(out) + Repeat(c, n)
      {
        ghost var o := out;
        Putch(c);
        width := width - 1;
        assert o + Repeat(c, width + 1) == out + Repeat(c, width);
      }
      assert out + Repeat(c, width) == out;
    }

    /** printnum */
    method PrintNum(num: nat, base: nat, width: int, padc: char)
      requires Valid() && 2 <= base <= 16
      modifies this, buf
      ensures Valid() && out == old(out) + NumText(num, base, width, padc)
      decreases num
    {
      hide *;
      DivideStep(num, base);
      NumTextStep(num, base, width, padc);
      if num >= base {
        PrintNum(num / base, base, width - 1, padc);
      } else {
        Pad(padc, width - 1);
      }
      Putch(DIGITS[num % base]);
    }

    /** The character loop of %s; what is left of the width. */
    method PrintChars(p: string, n: int, alt: bool, w: int) returns (width: int)
      requires Valid()
      modifies this, buf
      ensures Valid() && out == old(out) + MaskAll(p[..StrNLen(p, 0, n)], alt) && width == w - StrNLen(p, 0, n)
    {
      hide Valid;
      ghost var len := StrNLen(p, 0, n);
      ghost var shown := MaskAll(p[..len], alt);
      var precision, i: nat := n, 0;
      width := w;
      var ch := At(p, i);
      assert shown[..i] == [];
      while ch != '\0' && (precision < 0 || precision - 1 >= 0)
        invariant i <= |p| && ch == At(p, i) && Valid() && i <= len && width == w - i
        invariant precision == if n < 0 then n else n - i
        invariant StrNLen(p, i, n) == len && out == old(out) + shown[..i]
        decreases |p| - i
      {
        if precision >= 0 { precision := precision - 1; }
        assert i < len;
        ShownNext(p, len, i, alt);
        if alt && (ch < ' ' || ch > '~') {
          Putch('?');
        } else {
          Putch(ch);
        }
        i, width := i + 1, width - 1;
        ch := At(p, i);
      }
      assert i == len && shown[..i] == shown;
    }

    /** The body of %s. */
    method PrintString(p: string, sp: Spec)
      requires Valid()
      modifies this, buf
      ensures Valid() && out == old(out) + StrText(p, sp)
    {
      hide Valid;
      hide StrNLen;
      hide MaskAll;
      var width := sp.width;
      if width > 0 && sp.padc != '-' {
        var len := StrNLenLoop(p, sp.precision);
        width := width - len;
        Pad(sp.padc, width);
        width := if width > 0 then 0 else width;
      }
      width := PrintChars(p, sp.precision, sp.alt, width);
      Pad(' ', width);
      assert sp.width > 0 && sp.padc != '-' ==> Repeat(' ', width) == [];
    }

    /** The conversions: the cases of the switch that consume an argument, and %%. */
    method PrintOne(c: char, sp: Spec, args: seq<Arg>, k: nat)
      requires Valid() && IsConversion(c)
      modifies this, buf
      ensures Valid() && out == old(out) + Convert(c, sp, args, k)
    {
      hide Valid;
      hide NumText;
      hide StrText;
      var v := IntArg(args, k);
      if c == 'c' {
        Putch((v % 256) as char);
      } else if c == 'e' {
        PrintError(v);
      } else if c == 's' {
        PrintString(StrArg(args, k), sp);
      } else if c == 'd' {
        PrintSigned(SignedWrap(v, sp.longs), sp.width, sp.padc);
      } else if c == 'u' {
        PrintNum(Wrap(v, sp.longs), 10, sp.width, sp.padc);
      } else if c == 'o' {
        PrintNum(Wrap(v, sp.longs), 8, sp.width, sp.padc);
      } else if c == 'p' {
        Putch('0');
        Putch('x');
        PrintNum(Wrap(v, 1), 16, sp.width, sp.padc);
      } else if c == 'x' {
        PrintNum(Wrap(v, sp.longs), 16, sp.width, sp.padc);
      } else {
        Putch('%');
      }
    }

    method PrintSigned(v: int, width: int, padc: char)
      requires Valid()
      modifies this, buf
      ensures Valid() && out == old(out) + DecText(v, width, padc)
    {
      hide Valid;
      hide NumText;
      hide Digits;
      hide Repeat;
      var num: int := v;
      if num < 0 {
        Putch('-');
        num := -num;
      }
      PrintNum(num, 10, width, padc);
    }

    /** %e: the message, or "error" and the number. */
    method PrintError(v: int)
      requires Valid()
      modifies this, buf
      ensures Valid() && out == old(out) + ErrText(v)
    {
      hide *;
      var err: int := SignedWrap(v, 0);
      if err < 0 {
        err := -err;
      }
      ErrCases(v, err);
      if err > MAXERROR || ErrorString(err) == "" {
        PutAll("error ");
        PrintNum(err, 10, -1, ' ');
      } else {
        PutAll(ErrorString(err));
      }
    }

    /** vprintfmt */
    method VPrintFmt(fmt: string, args: seq<Arg>)
      requires Valid()
      modifies this, buf
      ensures Valid() && out == old(out) + Format(fmt, 0, args, 0)
    {
      hide Valid;
      hide Convert;
      hide IsConversion;
      hide Format;
      hide Flags;
      ghost var o := out;
      var i: nat, k: nat := 0, 0;
      while true
        invariant i <= |fmt| && Valid() && out + Format(fmt, i, args, k) == o + Format(fmt, 0, args, 0)
        decreases |fmt| - i
      {
        var ch := At(fmt, i);
        ghost var o1, rest := out, Format(fmt, i, args, k);
        FormatStep(fmt, i, args, k);
        if ch == '\0' {
          assert rest == "" && out + rest == out;
          return;
        } else if ch != '%' {
          Putch(ch);
          i := i + 1;
        } else {
          var sp, j, k' := ReadFlags(fmt, i + 1, args, k);
          var d := At(fmt, j);
          if IsConversion(d) {
            PrintOne(d, sp, args, k');
            i, k := j + 1, if d == '%' then k' else k' + 1;
          } else {
            Putch('%');
            i := BackToPercent(fmt, i, j, args, k);
            k := k';
          }
        }
        assert out + Format(fmt, i, args, k) == o1 + rest;
      }
    }
  }

  /** The scan that looks back for the percent sign stops only at the escape's own. */
  method BackToPercent(fmt: string, start: nat, j: nat, args: seq<Arg>, k: nat) returns (i: nat)
    requires start < |fmt| && fmt[start] == '%' && j == Flags(fmt, start + 1, args, k, PLAIN).1
    ensures i == start + 1
  {
    hide Flags;
    i := j;
    while fmt[i - 1] != '%'
      invariant start < i <= j
      decreases i
    {
      i := i - 1;
    }
  }

  /** strnlen */
  method StrNLenLoop(s: string, len: int) returns (cnt: nat)
    ensures cnt == StrNLen(s, 0, len)
  {
    cnt := 0;
    while (len < 0 || cnt < len) && At(s, cnt) != '\0'
      invariant cnt <= |s| && StrNLen(s, cnt, len) == StrNLen(s, 0, len)
      decreases |s| - cnt
    {
      cnt := cnt + 1;
    }
  }

  /** The flag states of the escape: the jumps back to the switch, with the number loop inside. */
  method ReadFlags(fmt: string, first: nat, args: seq<Arg>, arg: nat) returns (sp: Spec, i: nat, k: nat)
    requires first <= |fmt|
    ensures (sp, i, k) == Flags(fmt, first, args, arg, PLAIN)
  {
    sp, i, k := PLAIN, first, arg;
    while true
      invariant i <= |fmt| && Flags(fmt, i, args, k, sp) == Flags(fmt, first, args, arg, PLAIN)
      decreases |fmt| - i
    {
      var ch := At(fmt, i);
      if ch == '-' {
        sp, i := sp.(padc := '-'), i + 1;
      } else if ch == '0' {
        sp, i := sp.(padc := '0'), i + 1;
      } else if '1' <= ch <= '9' {
        var n, e := ReadDecimal(fmt, i);
        DecimalSpan(fmt, i, 0);
        sp, i := WithNumber(sp, n), e;
      } else if ch == '*' {
        sp, i, k := WithNumber(sp, SignedWrap(IntArg(args, k), 0)), i + 1, k + 1;
      } else if ch == '.' {
        sp, i := if sp.width < 0 then sp.(width := 0) else sp, i + 1;
      } else if ch == '#' {
        sp, i := sp.(alt := true), i + 1;
      } else if ch == 'l' {
        sp, i := sp.(longs := sp.longs + 1), i + 1;
      } else {
        return;
      }
    }
  }

  method ReadDecimal(fmt: string, first: nat) returns (n: nat, i: nat)
    requires first < |fmt| && '0' <= fmt[first] <= '9'
    ensures (n, i) == Decimal(fmt, first, 0)
  {
    n, i := 0, first;
    while '0' <= At(fmt, i) <= '9'
      invariant i <= |fmt| && Decimal(fmt, i, n) == Decimal(fmt, first, 0)
      decreases |fmt| - i
    {
      n, i := n * 10 + (fmt[i] as nat - '0' as nat), i + 1;
    }
  }

  /** The call of vprintfmt on a buffer that is there, and the closing NUL. */
  method PrintInto(str: array<char>, size: nat, fmt: string, args: seq<Arg>) returns (r: int)
    requires 0 < size <= str.Length
    modifies str
    ensures var text := Format(fmt, 0, args, 0);
            var n := if |text| < size - 1 then |text| else size - 1;
            r == |text| && str[..] == text[..n] + ['\0'] + old(str[n + 1..])
  {
    hide *;
    var b := new SprintBuf(str, size);
    b.VPrintFmt(fmt, args);
    b.Terminate();
    return b.cnt;
  }

  /** vsnprintf: -3, which is -E_INVAL, for a null or empty buffer; otherwise the length of the whole output, of which
      the first size - 1 characters are stored, then a NUL, and nothing else in the buffer changes. */
  method VSnprintf(str: array?<char>, size: nat, fmt: string, args: seq<Arg>) returns (r: int)
    requires str != null ==> size <= str.Length
    modifies str
    ensures str == null || size == 0 ==> r == -3 && (str != null ==> str[..] == old(str[..]))
    ensures str != null && size > 0 ==>
              var text := Format(fmt, 0, args, 0);
              var n := if |text| < size - 1 then |text| else size - 1;
              r == |text| && str[..] == text[..n] + ['\0'] + old(str[n + 1..])
  {
    hide Format;
    if str == null || size == 0 {
      return -E_INVAL;
    }
    r := PrintInto(str, size, fmt, args);
  }
}
