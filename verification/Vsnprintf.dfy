/**
 vsnprintf of lib/vsprintf.c. The reference is a function that formats without any bound; the method
 prints character by character into a bounded buffer. A pointer into the format is its remaining suffix.
 */
module Vsnprintf {
  import opened Arith
  import opened Sequences
  import opened Div64
  import opened Numerals
  import opened Words

  datatype Flags = Flags(zeropad: bool, sign: bool, plus: bool, space: bool, left: bool, special: bool, large: bool)

  const NO_FLAGS := Flags(false, false, false, false, false, false, false)

  /** Texts of this length or more would take the counters of number(), or the result, out of an int. */
  const MAX_TEXT := S31 - 3

  predicate IsInt(n: int) {
    -(S31 as int) <= n < S31
  }

  function Repeat(c: char, n: int): (s: string)
    ensures |s| == if n < 0 then 0 else n
  {
    if n <= 0 then "" else Repeat(c, n - 1) + [c]
  }

  lemma {:induction false} RepeatMembers(c: char, n: int)
    ensures forall x :: x in Repeat(c, n) ==> x == c
  {
    if n > 0 { RepeatMembers(c, n - 1); }
  }

  // ---------------------------------------------------------------------------------------------
  // Numbers
  // ---------------------------------------------------------------------------------------------

  /** The unsigned number whose digits are printed; `num` is a long long. */
  function Magnitude(num: int, f: Flags): (n: nat)
    requires -(S63 as int) <= num < S63
    ensures n < U64
  {
    if num >= 0 then num else if f.sign then -num else num + U64
  }

  function SignText(num: int, f: Flags): (s: string)
    ensures |s| <= 1
  {
    if !f.sign then "" else if num < 0 then "-" else if f.plus then "+" else if f.space then " " else ""
  }

  function BaseText(base: nat, f: Flags): string {
    if !f.special then "" else if base == 16 then (if f.large then "0X" else "0x") else if base == 8 then "0" else ""
  }

  /** `c` as often as `n` says, if it is wanted. */
  function Fill(wanted: bool, c: char, n: int): string {
    if wanted then Repeat(c, n) else ""
  }

  /**
   What number() prints: at least `precision` digits, padded to `width` with spaces on the left, with
   zeros behind the sign, or with spaces on the right.
   */
  function NumberText(num: int, base: nat, width: int, precision: int, f: Flags): string
    requires -(S63 as int) <= num < S63 && 2 <= base <= 36
  {
    var digits, sign, special := Digits(Magnitude(num, f), base, f.large), SignText(num, f), BaseText(base, f);
    var least := if precision > |digits| then precision else |digits|;
    var pad := width - |sign| - |special| - least;
    Fill(!f.left && !f.zeropad, ' ', pad) + sign + special + Fill(!f.left && f.zeropad, '0', pad)
    + Repeat('0', least - |digits|) + digits + Fill(f.left, ' ', pad)
  }

  /** The output is never cut: it has the field width, or what the number needs if that is more. */
  lemma NumberWidth(num: int, base: nat, width: int, precision: int, f: Flags)
    requires -(S63 as int) <= num < S63 && 2 <= base <= 36
    ensures var d := |Digits(Magnitude(num, f), base, f.large)|;
            var need := |SignText(num, f)| + |BaseText(base, f)| + if precision > d then precision else d;
            |NumberText(num, base, width, precision, f)| == if width > need then width else need
  {
  }

  /** What is left of a counter when the loop while (n-- > 0) ends. */
  function Exhausted(n: int): int {
    if n >= 0 then -1 else n - 1
  }

  /** The counters of number() stay ints while its output is shorter than `MAX_TEXT`. */
  lemma NumberInts(num: int, base: nat, width: int, precision: int, f: Flags)
    requires -(S63 as int) <= num < S63 && 2 <= base <= 36 && -1 <= width < S31 && precision < S31
    requires |NumberText(num, base, width, precision, f)| < MAX_TEXT
    ensures var d := |Digits(Magnitude(num, f), base, f.large)|;
            var pad := width - |SignText(num, f)| - |BaseText(base, f)| - if precision > d then precision else d;
            var size := if !f.zeropad && !f.left then Exhausted(pad) else pad;
            IsInt(pad) && IsInt(pad - 1) && IsInt(size) && IsInt(size - 1)
  {
    NumberWidth(num, base, width, precision, f);
    hide NumberText, Digits, Magnitude, SignText, BaseText;
  }

  /** A 64-bit number as the signed value of the same bits. */
  function Signed(n: nat, modulus: nat): int {
    if n < modulus / 2 then n else n - modulus
  }

  /** simple_strtoull undoes number() for every 64-bit value and every base from 2 to 16. */
  lemma StrtoullUndoesNumber(v: nat, base: nat, rest: string)
    requires v < U64 && 2 <= base <= 16 && !DigitOf(At(rest, 0), base)
    ensures var s := NumberText(Signed(v, U64), base, -1, -1, NO_FLAGS); Parses(s + rest, base, v, |s|)
  {
    PlainNumber(v, base, NO_FLAGS);
    UndoesDigits(v, base, false, rest);
  }

  lemma PlainNumber(v: nat, base: nat, f: Flags)
    requires v < U64 && 2 <= base <= 36 && !f.sign && !f.left && !f.zeropad
    ensures NumberText(Signed(v, U64), base, -1, -1, f) == BaseText(base, f) + Digits(v, base, f.large)
  {
    assert Magnitude(Signed(v, U64), f) == v;
    hide Digits, BaseText, Magnitude, Signed;
    Trim(BaseText(base, f), Digits(v, base, f.large));
  }

  lemma Trim(special: string, digits: string)
    ensures "" + "" + special + "" + "" + digits + "" == special + digits
  {
  }

  // ---------------------------------------------------------------------------------------------
  // Format directives
  // ---------------------------------------------------------------------------------------------

  /** The arguments as va_arg finds them; one that is missing or of another kind reads as zero. */
  datatype Arg = Word(bits: nat) | Wide(bits: nat) | Text(s: Option<string>)

  function NextWord(args: seq<Arg>): (w: nat)
    ensures w < U32
  {
    if args != [] && args[0].Word? then args[0].bits % U32 else 0
  }

  function NextWide(args: seq<Arg>): (w: nat)
    ensures w < U64
  {
    if args != [] && args[0].Wide? then args[0].bits % U64 else 0
  }

  function NextText(args: seq<Arg>): string {
    if args != [] && args[0].Text? && args[0].s.Some? then args[0].s.value else "<NULL>"
  }

  function Rest(args: seq<Arg>): seq<Arg> {
    if args == [] then [] else args[1..]
  }

  /** The decimal digits at the head of `s`. */
  function Run(s: string): (n: nat)
    ensures n <= |s| && AllDigits(s[..n], 10) && !IsDigit(At(s, n))
  {
    if s != "" && IsDigit(s[0]) then
      var n := Run(s[1..]);
      RunMore(s, n);
      1 + n
    else 0
  }

  lemma RunMore(s: string, n: nat)
    requires s != "" && IsDigit(s[0]) && n <= |s| - 1 && AllDigits(s[1..][..n], 10) && !IsDigit(At(s[1..], n))
    ensures AllDigits(s[..n + 1], 10) && !IsDigit(At(s, n + 1))
  {
    assert s[..n + 1] == [s[0]] + s[1..][..n];
  }

  function FlagOf(c: char, f: Flags): Option<Flags> {
    if c == '-' then Some(f.(left := true))
    else if c == '+' then Some(f.(plus := true))
    else if c == ' ' then Some(f.(space := true))
    else if c == '#' then Some(f.(special := true))
    else if c == '0' then Some(f.(zeropad := true))
    else None
  }

  /** A directive up to its conversion character, which is the head of `rest`; -1 means not given. */
  datatype Directive = Directive(flags: Flags, width: int, precision: int, qualifier: char, rest: string, args: seq<Arg>)

  function ReadFlags(d: Directive): Directive
    decreases |d.rest|
  {
    var f := FlagOf(At(d.rest, 0), d.flags);
    if f.Some? then ReadFlags(d.(flags := f.value, rest := d.rest[1..])) else d
  }

  function ReadWidth(d: Directive): Directive {
    var s := d.rest;
    if IsDigit(At(s, 0)) then d.(width := Value(s[..Run(s)], 10), rest := s[Run(s)..])
    else if At(s, 0) == '*' then
      var w := Signed(NextWord(d.args), U32);
      d.(width := if w < 0 then -w else w, flags := if w < 0 then d.flags.(left := true) else d.flags,
         rest := s[1..], args := Rest(d.args))
    else d
  }

  function ReadPrecision(d: Directive): Directive {
    if At(d.rest, 0) != '.' then d
    else
      var s := d.rest[1..];
      if IsDigit(At(s, 0)) then d.(precision := Value(s[..Run(s)], 10), rest := s[Run(s)..])
      else if At(s, 0) == '*' then
        var p := Signed(NextWord(d.args), U32);
        d.(precision := if p < 0 then 0 else p, rest := s[1..], args := Rest(d.args))
      else d.(precision := 0, rest := s)
  }

  function ReadQualifier(d: Directive): Directive {
    var c := At(d.rest, 0);
    if c != 'h' && c != 'l' && c != 'L' && c != 'Z' then d
    else if c == 'l' && At(d.rest, 1) == 'l' then d.(qualifier := 'L', rest := d.rest[2..])
    else d.(qualifier := c, rest := d.rest[1..])
  }

  /** The directive behind a percent sign. */
  function Parsed(s: string, args: seq<Arg>): Directive {
    ReadQualifier(ReadPrecision(ReadWidth(ReadFlags(Directive(NO_FLAGS, -1, -1, '\0', s, args)))))
  }

  /** A number in the format that skip_atoi reads without leaving an int: it adds a digit before it takes '0' off. */
  predicate NumberFits(s: string) {
    IsDigit(At(s, 0)) ==> Value(s[..Run(s)], 10) + '0' as int < S31
  }

  /** The numbers of a directive are ints, and a negative width has a positive one. */
  predicate ParsedFits(s: string, args: seq<Arg>) {
    var d := ReadFlags(Directive(NO_FLAGS, -1, -1, '\0', s, args));
    var e := ReadWidth(d);
    && NumberFits(d.rest) && (At(d.rest, 0) == '*' ==> Signed(NextWord(d.args), U32) != -(S31 as int))
    && (At(e.rest, 0) == '.' ==> NumberFits(e.rest[1..]))
  }

  /** So in all directives of a format. */
  predicate Fits(fmt: string, args: seq<Arg>)
    decreases |fmt|
  {
    if fmt == "" then true
    else if fmt[0] != '%' then Fits(fmt[1..], args)
    else
      var d := Parsed(fmt[1..], args);
      ParsedShrinks(fmt[1..], args);
      ParsedFits(fmt[1..], args) && (d.rest != "" ==> Fits(d.rest[1..], if Consumes(d.rest[0]) then Rest(d.args) else d.args))
  }

  /** The integer argument as a long long. */
  function Integer(qualifier: char, sign: bool, args: seq<Arg>): (num: int)
    ensures -(S63 as int) <= num < S63
  {
    if qualifier == 'L' then Signed(NextWide(args), U64)
    else if qualifier == 'h' then (if sign then Signed(NextWord(args) % 0x1_0000, 0x1_0000) else NextWord(args) % 0x1_0000)
    else if sign && qualifier != 'Z' then Signed(NextWord(args), U32)
    else NextWord(args)
  }

  function Justified(s: string, width: int, left: bool): string {
    if left then s + Repeat(' ', width - |s|) else Repeat(' ', width - |s|) + s
  }

  lemma JustifiedLength(s: string, width: int, left: bool)
    ensures |Justified(s, width, left)| == if width > |s| then width else |s|
  {
  }

  function BaseOf(conv: char): (base: nat)
    ensures 2 <= base <= 36
  {
    if conv == 'o' then 8 else if conv == 'x' || conv == 'X' then 16 else 10
  }

  predicate IsInteger(conv: char) {
    conv == 'o' || conv == 'x' || conv == 'X' || conv == 'd' || conv == 'i' || conv == 'u'
  }

  function IntegerFlags(conv: char, f: Flags): Flags {
    f.(large := f.large || conv == 'X', sign := f.sign || conv == 'd' || conv == 'i')
  }

  /** What a directive with the conversion `conv` prints. */
  function Converted(d: Directive, conv: char): string {
    if IsInteger(conv) then
      var f := IntegerFlags(conv, d.flags);
      NumberText(Integer(d.qualifier, f.sign, d.args), BaseOf(conv), d.width, d.precision, f)
    else if conv == 'c' then Justified([(NextWord(d.args) % 256) as char], d.width, d.flags.left)
    else if conv == 's' then
      var s := NextText(d.args);
      Justified(if 0 <= d.precision < |s| then s[..d.precision] else s, d.width, d.flags.left)
    else if conv == 'p' then
      if d.width == -1 then NumberText(NextWord(d.args), 16, 8, d.precision, d.flags.(zeropad := true))
      else NumberText(NextWord(d.args), 16, d.width, d.precision, d.flags)
    else if conv == 'n' then ""
    else if conv == '%' then "%"
    else ['%', conv]
  }

  predicate Consumes(conv: char) {
    IsInteger(conv) || conv == 'c' || conv == 's' || conv == 'p' || conv == 'n'
  }

  /** The whole output, and the numbers that "%n" stores. */
  datatype Output = Output(text: string, counts: seq<nat>)

  function Formatted(fmt: string, args: seq<Arg>, done: Output): Output
    decreases |fmt|
  {
    if fmt == "" then done
    else if fmt[0] != '%' then Formatted(fmt[1..], args, done.(text := done.text + [fmt[0]]))
    else
      var d := Parsed(fmt[1..], args);
      ParsedShrinks(fmt[1..], args);
      if d.rest == "" then done.(text := done.text + "%")
      else
        var conv := d.rest[0];
        Formatted(d.rest[1..], if Consumes(conv) then Rest(d.args) else d.args,
                  Output(done.text + Converted(d, conv), if conv == 'n' then done.counts + [|done.text|] else done.counts))
  }

  lemma {:induction false} FlagsShrink(d: Directive)
    ensures |ReadFlags(d).rest| <= |d.rest|
    decreases |d.rest|
  {
    var f := FlagOf(At(d.rest, 0), d.flags);
    if f.Some? { FlagsShrink(d.(flags := f.value, rest := d.rest[1..])); }
  }

  lemma ParsedShrinks(s: string, args: seq<Arg>)
    ensures |Parsed(s, args).rest| <= |s|
  {
    FlagsShrink(Directive(NO_FLAGS, -1, -1, '\0', s, args));
    hide Run, Value, Signed;
  }

  // ---------------------------------------------------------------------------------------------
  // Laws of the format
  // ---------------------------------------------------------------------------------------------

  lemma Assoc(out: string, a: string, b: string)
    ensures out + a + b == out + (a + b)
  {
  }

  /** What was printed before is kept and does not matter, except to "%n". */
  lemma {:induction false} FormattedExtends(fmt: string, args: seq<Arg>, done: Output, counts: seq<nat>)
    ensures Formatted(fmt, args, done).text == done.text + Formatted(fmt, args, Output("", counts)).text
    decreases |fmt|
  {
    hide Converted, Parsed;
    if fmt != "" {
      if fmt[0] != '%' {
        FormattedExtends(fmt[1..], args, done.(text := done.text + [fmt[0]]), counts);
        FormattedExtends(fmt[1..], args, Output("" + [fmt[0]], counts), counts);
        Assoc(done.text, [fmt[0]], Formatted(fmt[1..], args, Output("", counts)).text);
        assert "" + [fmt[0]] == [fmt[0]];
      } else {
        ExtendsDirective(fmt, args, done, counts);
      }
    }
  }

  lemma {:induction false} ExtendsDirective(fmt: string, args: seq<Arg>, done: Output, counts: seq<nat>)
    requires fmt != "" && fmt[0] == '%'
    ensures Formatted(fmt, args, done).text == done.text + Formatted(fmt, args, Output("", counts)).text
    decreases |fmt|, 0
  {
    hide Converted, Parsed;
    var d := Parsed(fmt[1..], args);
    ParsedShrinks(fmt[1..], args);
    if d.rest == "" {
      assert "" + "%" == "%";
    } else {
      var conv := d.rest[0];
      var out, later := Converted(d, conv), if Consumes(conv) then Rest(d.args) else d.args;
      var c0 := if conv == 'n' then done.counts + [|done.text|] else done.counts;
      var c1 := if conv == 'n' then counts + [0] else counts;
      assert "" + out == out;
      FormattedExtends(d.rest[1..], later, Output(done.text + out, c0), counts);
      FormattedExtends(d.rest[1..], later, Output(out, c1), counts);
      Assoc(done.text, out, Formatted(d.rest[1..], later, Output("", counts)).text);
    }
  }

  /** Widths and precisions read from a format that fits are ints. */
  lemma ParsedInts(s: string, args: seq<Arg>)
    requires ParsedFits(s, args)
    ensures -1 <= Parsed(s, args).width < S31 && -1 <= Parsed(s, args).precision < S31
  {
    var d := Directive(NO_FLAGS, -1, -1, '\0', s, args);
    FlagsKeep(d);
    hide Value, Run, NextWord, ReadFlags;
  }

  lemma {:induction false} FlagsKeep(d: Directive)
    ensures ReadFlags(d).width == d.width && ReadFlags(d).precision == d.precision
    decreases |d.rest|
  {
    var f := FlagOf(At(d.rest, 0), d.flags);
    if f.Some? { FlagsKeep(d.(flags := f.value, rest := d.rest[1..])); }
  }

  /** What one directive prints is part of the whole text. */
  lemma DirectiveFits(fmt: string, args: seq<Arg>, done: Output)
    requires fmt != "" && fmt[0] == '%' && Fits(fmt, args) && |Formatted(fmt, args, done).text| < MAX_TEXT
    requires Parsed(fmt[1..], args).rest != ""
    ensures var d := Parsed(fmt[1..], args);
            -1 <= d.width < S31 && d.precision < S31 && |Converted(d, d.rest[0])| < MAX_TEXT
  {
    var d := Parsed(fmt[1..], args);
    ParsedInts(fmt[1..], args);
    ParsedShrinks(fmt[1..], args);
    hide Converted, Parsed, ParsedFits;
    var conv := d.rest[0];
    var next := Output(done.text + Converted(d, conv), if conv == 'n' then done.counts + [|done.text|] else done.counts);
    FormattedExtends(d.rest[1..], if Consumes(conv) then Rest(d.args) else d.args, next, []);
  }

  // ---------------------------------------------------------------------------------------------
  // Reading the format
  // ---------------------------------------------------------------------------------------------

  /** skip_atoi. */
  method SkipAtoi(s: string) returns (v: nat, rest: string)
    requires Value(s[..Run(s)], 10) + '0' as int < S31
    ensures v == Value(s[..Run(s)], 10) && rest == s[Run(s)..]
  {
    v, rest := 0, s;
    ghost var n: nat := 0;
    NothingScanned(s, 0, 10);
    while IsDigit(At(rest, 0))
      invariant n <= |s| && rest == s[n..] && AllDigits(s[..n], 10) && v == Value(s[..n], 10)
      decreases |rest|
    {
      assert s[..n + 1] == s[..n] + [s[n]];
      ValueAppend(s[..n], s[n], 10);
      PrefixFits(s, n + 1);
      assert IsInt(v * 10 + At(rest, 0) as int);
      v := v * 10 + DigitValue(At(rest, 0));
      rest := rest[1..];
      n := n + 1;
    }
    RunIs(s, n);
  }

  lemma RunIs(s: string, n: nat)
    requires n <= |s| && AllDigits(s[..n], 10) && !IsDigit(At(s, n))
    ensures Run(s) == n
  {
    var r := Run(s);
    assert s[0..n] == s[..n] && s[0..r] == s[..r];
    InRun(s, 10, 0, r, n);
    InRun(s, 10, 0, n, r);
  }

  /** On the way to an int every partial sum is one. */
  lemma PrefixFits(s: string, n: nat)
    requires n <= |s| && AllDigits(s[..n], 10)
    ensures n <= Run(s) && Value(s[..n], 10) <= Value(s[..Run(s)], 10)
  {
    var r := Run(s);
    assert s[0..n] == s[..n] && s[0..r] == s[..r];
    InRun(s, 10, 0, r, n);
    ValueGrows(s[..r], n);
    assert s[..r][..n] == s[..n];
  }

  lemma {:induction false} ValueGrows(s: string, n: nat)
    requires AllDigits(s, 10) && n <= |s|
    ensures Value(s[..n], 10) <= Value(s, 10)
  {
    if n < |s| {
      ValueGrows(s[..|s| - 1], n);
      assert s[..|s| - 1][..n] == s[..n];
    } else {
      assert s[..n] == s;
    }
  }

  /** "process flags" */
  method TakeFlags(d0: Directive) returns (d: Directive)
    ensures d == ReadFlags(d0)
  {
    d := d0;
    var f := FlagOf(At(d.rest, 0), d.flags);
    while f.Some?
      invariant ReadFlags(d) == ReadFlags(d0) && f == FlagOf(At(d.rest, 0), d.flags)
      decreases |d.rest|
    {
      d := d.(flags := f.value, rest := d.rest[1..]);
      f := FlagOf(At(d.rest, 0), d.flags);
    }
  }

  /** "get field width" */
  method TakeWidth(d0: Directive) returns (d: Directive)
    requires NumberFits(d0.rest) && (At(d0.rest, 0) == '*' ==> Signed(NextWord(d0.args), U32) != -(S31 as int))
    ensures d == ReadWidth(d0)
  {
    hide Value, Run, Signed;
    d := d0;
    if IsDigit(At(d.rest, 0)) {
      var v, rest := SkipAtoi(d.rest);
      d := d.(width := v, rest := rest);
    } else if At(d.rest, 0) == '*' {
      d := d.(width := Signed(NextWord(d.args), U32), rest := d.rest[1..], args := Rest(d.args));
      if d.width < 0 {
        d := d.(width := -d.width, flags := d.flags.(left := true));
      }
    }
  }

  /** "get the precision" */
  method TakePrecision(d0: Directive) returns (d: Directive)
    requires d0.precision == -1 && (At(d0.rest, 0) == '.' ==> NumberFits(d0.rest[1..]))
    ensures d == ReadPrecision(d0)
  {
    hide Value, Run, Signed;
    d := d0;
    if At(d.rest, 0) == '.' {
      d := d.(rest := d.rest[1..]);
      if IsDigit(At(d.rest, 0)) {
        var v, rest := SkipAtoi(d.rest);
        d := d.(precision := v, rest := rest);
      } else if At(d.rest, 0) == '*' {
        d := d.(precision := Signed(NextWord(d.args), U32), rest := d.rest[1..], args := Rest(d.args));
      }
      if d.precision < 0 {
        d := d.(precision := 0);
      }
    }
  }

  /** "get the conversion qualifier" */
  method TakeQualifier(d0: Directive) returns (d: Directive)
    ensures d == ReadQualifier(d0)
  {
    d := d0;
    var c := At(d.rest, 0);
    if c == 'h' || c == 'l' || c == 'L' || c == 'Z' {
      d := d.(qualifier := c, rest := d.rest[1..]);
      if c == 'l' && At(d.rest, 0) == 'l' {
        d := d.(qualifier := 'L', rest := d.rest[1..]);
        assert d.rest == d0.rest[2..];
      }
    }
  }

  /** The part of vsnprintf that reads a directive up to its conversion character. */
  method ReadDirective(s: string, args: seq<Arg>) returns (d: Directive)
    requires ParsedFits(s, args)
    ensures d == Parsed(s, args)
  {
    hide ReadWidth, ReadQualifier, ReadPrecision, NumberFits;
    d := TakeFlags(Directive(NO_FLAGS, -1, -1, '\0', s, args));
    d := TakeWidth(d);
    NoPrecisionYet(Directive(NO_FLAGS, -1, -1, '\0', s, args));
    d := TakePrecision(d);
    d := TakeQualifier(d);
  }

  lemma {:induction false} NoPrecisionYet(d: Directive)
    ensures ReadWidth(ReadFlags(d)).precision == d.precision
    decreases |d.rest|
  {
    hide Value, Run, Signed;
    var f := FlagOf(At(d.rest, 0), d.flags);
    if f.Some? { NoPrecisionYet(d.(flags := f.value, rest := d.rest[1..])); }
  }

  // ---------------------------------------------------------------------------------------------
  // Printing into a bounded buffer
  // ---------------------------------------------------------------------------------------------

  function Min(a: nat, b: nat): nat {
    if a < b then a else b
  }

  /** `text` cut to `cap` characters, over what the buffer held before. */
  function Shown(text: string, cap: nat, before: seq<char>): seq<char>
    requires cap <= |before|
  {
    text[..Min(cap, |text|)] + before[Min(cap, |text|)..]
  }

  /** The digit loop of number(): least significant digit first, into a buffer of 66. */
  method StoreDigits(n0: nat, base: nat, large: bool) returns (tmp: array<char>, i: nat)
    requires n0 < U64 && 2 <= base <= 36
    ensures fresh(tmp) && i <= tmp.Length && Reverse(tmp[..i]) == Digits(n0, base, large)
  {
    tmp, i := new char[66], 0;
    var n: nat := n0;
    if n == 0 {
      tmp[0], i := '0', 1;
      assert tmp[..1] == "0";
      return;
    }
    U64IsPower();
    DigitsLength(n0, base, large, 64);
    hide Digits, DigitChar;
    assert tmp[..0] == "";
    while n != 0
      invariant n < U64 && i <= 64 && (n != 0 ==> i + |Digits(n, base, large)| <= 64)
      invariant Digits(n0, base, large) == (if n == 0 then "" else Digits(n, base, large)) + Reverse(tmp[..i])
      decreases n
    {
      var r;
      DigitsStep(n, base, large, tmp[..i]);
      ghost var was, stored := n, tmp[..i];
      n, r := DoDiv64(n, base);
      tmp[i] := DigitChar(r, large);
      i := i + 1;
      assert tmp[..i] == stored + [DigitChar(r, large)];
    }
  }

  lemma DigitsStep(n: nat, base: nat, large: bool, s: string)
    requires n > 0 && 2 <= base <= 36
    ensures var q, c := n / base, DigitChar(n % base, large);
            && q < n && Digits(n, base, large) + Reverse(s) == (if q == 0 then "" else Digits(q, base, large)) + Reverse(s + [c])
            && |Digits(n, base, large)| == 1 + if q == 0 then 0 else |Digits(q, base, large)|
  {
    Shrinks(n, base);
    var q, c := Quotient(n, base), DigitChar(Remainder(n, base), large);
    assert q == n / base && c == DigitChar(n % base, large);
    hide DigitChar, Quotient, Remainder;
    assert (s + [c])[..|s|] == s;
    if q > 0 { Assoc(Digits(q, base, large), [c], Reverse(s)); }
  }

  lemma U64IsPower()
    ensures U64 == Pow2(64)
  {
    assert Pow2(8) == 256;
    Pow2Add(8, 8);
    Pow2Add(16, 16);
    Pow2Add(32, 32);
  }

  /** A counter that has run out prints nothing, so each padding is printed at one place only. */
  lemma Fills(pad: int, f: Flags)
    ensures var size := if !f.left && !f.zeropad then Exhausted(pad) else pad;
            && Fill(!f.left, if f.zeropad then '0' else ' ', size) == Fill(!f.left && f.zeropad, '0', pad)
            && Repeat(' ', if !f.left then Exhausted(size) else size) == Fill(f.left, ' ', pad)
  {
  }

  lemma Assoc7(out: string, a: string, b: string, c: string, d: string, e: string, f: string, g: string)
    ensures out + (a + b + c + d + e + f + g) == out + a + b + c + d + e + f + g
  {
    Assoc(out, a, b);
    Assoc(out, a + b, c);
    Assoc(out, a + b + c, d);
    Assoc(out, a + b + c + d, e);
    Assoc(out, a + b + c + d + e, f);
    Assoc(out, a + b + c + d + e + f, g);
  }

  /** number() prints the pieces of its text one after the other. */
  lemma NumberPieces(out: string, num: int, base: nat, width: int, precision: int, f: Flags, digits: string, least: int, pad: int)
    requires -(S63 as int) <= num < S63 && 2 <= base <= 36 && digits == Digits(Magnitude(num, f), base, f.large)
    requires least == (if |digits| > precision then |digits| else precision)
    requires pad == width - |SignText(num, f)| - |BaseText(base, f)| - least
    ensures out + NumberText(num, base, width, precision, f) ==
      out + Fill(!f.left && !f.zeropad, ' ', pad) + SignText(num, f) + BaseText(base, f) + Fill(!f.left && f.zeropad, '0', pad)
      + Repeat('0', least - |digits|) + digits + Fill(f.left, ' ', pad)
  {
    hide Digits, Repeat, Magnitude, SignText, BaseText, Fill;
    Assoc7(out, Fill(!f.left && !f.zeropad, ' ', pad), SignText(num, f), BaseText(base, f), Fill(!f.left && f.zeropad, '0', pad),
           Repeat('0', least - |digits|), digits, Fill(f.left, ' ', pad));
  }

  /** So do its loops, with the one counter that runs through the three paddings. */
  lemma NumberPrinted(out: string, num: int, base: nat, width: int, precision: int, f: Flags, digits: string, least: int, pad: int)
    requires -(S63 as int) <= num < S63 && 2 <= base <= 36 && digits == Digits(Magnitude(num, f), base, f.large)
    requires least == (if |digits| > precision then |digits| else precision)
    requires pad == width - |SignText(num, f)| - |BaseText(base, f)| - least
    ensures var size := if !f.zeropad && !f.left then Exhausted(pad) else pad;
            var last := if !f.left then Exhausted(size) else size;
            out + NumberText(num, base, width, precision, f) ==
            out + Fill(!f.zeropad && !f.left, ' ', pad) + SignText(num, f) + BaseText(base, f)
            + Fill(!f.left, if f.zeropad then '0' else ' ', size) + Repeat('0', least - |digits|) + digits + Repeat(' ', last)
  {
    hide Digits, Repeat, Magnitude, SignText, BaseText, Fill, NumberText;
    Fills(pad, f);
    NumberPieces(out, num, base, width, precision, f, digits, least, pad);
  }

  /** A buffer of `cap` characters after the terminating NUL was written. */
  function Terminated(text: string, cap: nat, before: seq<char>): seq<char>
    requires cap <= |before|
  {
    if cap == 0 then before
    else
      var k := Min(cap - 1, |text|);
      text[..k] + ['\0'] + before[k + 1..]
  }

  /** The cursor `str` of vsnprintf; `cap` is end + 1 - buf. `text` is all that was printed so far. */
  class Printer {
    const buf: array<char>
    const cap: nat
    var str: nat
    ghost const before: seq<char>
    ghost var text: string

    ghost predicate Valid()
      reads this, buf
    {
      && cap <= buf.Length == |before| && str == |text|
      && buf[..] == Shown(text, cap, before)
    }

    constructor (b: array<char>, capacity: nat)
      requires capacity <= b.Length
      ensures Valid() && buf == b && cap == capacity && str == 0 && before == b[..] && text == ""
    {
      buf, cap, str, before, text := b, capacity, 0, b[..], "";
    }

    /** One character: dropped behind the end, counted always. */
    method Put(c: char)
      requires Valid()
      modifies `str, `text, buf
      ensures Valid() && text == old(text) + [c]
    {
      if str < cap {
        buf[str] := c;
      }
      str := str + 1;
      text := text + [c];
    }

    method PutAll(s: string)
      requires Valid()
      modifies `str, `text, buf
      ensures Valid() && text == old(text) + s
    {
      for i := 0 to |s|
        invariant Valid() && text == old(text) + s[..i]
      {
        Put(s[i]);
      }
    }

    /** The loops of the form while (n-- > 0). */
    method PutTimes(c: char, n: int)
      requires Valid()
      modifies `str, `text, buf
      ensures Valid() && text == old(text) + Repeat(c, n)
    {
      var left := n;
      assert Repeat(c, 0) == "";
      while left > 0
        invariant Valid() && text == old(text) + Repeat(c, n - left) && (if n > 0 then 0 <= left <= n else left == n)
      {
        Put(c);
        left := left - 1;
      }
    }

    /** A padding loop that runs only if wanted; the counter that is left. */
    method PutFill(wanted: bool, c: char, n: int) returns (left: int)
      requires Valid() && IsInt(n) && IsInt(n - 1)
      modifies `str, `text, buf
      ensures Valid() && text == old(text) + Fill(wanted, c, n) && left == if wanted then Exhausted(n) else n
    {
      left := n;
      assert text + "" == text;
      if wanted {
        PutTimes(c, n);
        left := Exhausted(n);
      }
    }

    /** The loop while (i-- > 0) over the stored digits. */
    method PutReversed(tmp: string)
      requires Valid()
      modifies `str, `text, buf
      ensures Valid() && text == old(text) + Reverse(tmp)
    {
      var i: nat := |tmp|;
      assert tmp[..i] == tmp;
      while i > 0
        invariant i <= |tmp| && Valid() && text + Reverse(tmp[..i]) == old(text) + Reverse(tmp)
      {
        i := i - 1;
        assert tmp[..i + 1][..i] == tmp[..i];
        Put(tmp[i]);
      }
      assert tmp[..0] == "" && text + "" == text;
    }

    /** What number() prints before the digits, and the counter that is left. */
    method PutHead(pad: int, sign: string, special: string, f: Flags) returns (size: int)
      requires Valid() && IsInt(pad) && IsInt(pad - 1)
      requires var n := if !f.zeropad && !f.left then Exhausted(pad) else pad; IsInt(n) && IsInt(n - 1)
      modifies `str, `text, buf
      ensures var n := if !f.zeropad && !f.left then Exhausted(pad) else pad;
              && Valid() && size == (if !f.left then Exhausted(n) else n)
              && text == old(text) + Fill(!f.zeropad && !f.left, ' ', pad) + sign + special
                         + Fill(!f.left, if f.zeropad then '0' else ' ', n)
    {
      hide *;
      size := PutFill(!f.zeropad && !f.left, ' ', pad);
      PutAll(sign);
      PutAll(special);
      size := PutFill(!f.left, if f.zeropad then '0' else ' ', size);
    }

    /** What it prints from the precision on. */
    method PutTail(zeros: int, tmp: string, size: int)
      requires Valid()
      modifies `str, `text, buf
      ensures Valid() && text == old(text) + Repeat('0', zeros) + Reverse(tmp) + Repeat(' ', size)
    {
      hide *;
      PutTimes('0', zeros);
      PutReversed(tmp);
      PutTimes(' ', size);
    }

    /** number(): false, and nothing printed, for a base the digits do not reach. */
    method Number(num: int, base: nat, size0: int, precision0: int, f: Flags) returns (ok: bool)
      requires Valid() && -(S63 as int) <= num < S63 && -1 <= size0 < S31 && precision0 < S31
      requires 2 <= base <= 36 ==> |NumberText(num, base, size0, precision0, f)| < MAX_TEXT
      modifies `str, `text, buf
      ensures Valid() && ok == (2 <= base <= 36)
      ensures text == old(text) + if ok then NumberText(num, base, size0, precision0, f) else ""
    {
      hide *;
      if base < 2 || base > 36 {
        assert text + "" == text;
        return false;
      }
      PutNumber(num, base, size0, precision0, f);
      ok := true;
    }

    method PutNumber(num: int, base: nat, size0: int, precision0: int, f: Flags)
      requires Valid() && -(S63 as int) <= num < S63 && -1 <= size0 < S31 && precision0 < S31 && 2 <= base <= 36
      requires |NumberText(num, base, size0, precision0, f)| < MAX_TEXT
      modifies `str, `text, buf
      ensures Valid() && text == old(text) + NumberText(num, base, size0, precision0, f)
    {
      hide *;
      assert (this as object) != buf;
      NumberInts(num, base, size0, precision0, f);
      ghost var out := text;
      var sign, special := SignText(num, f), BaseText(base, f);
      var size, precision := size0 - |sign| - |special|, precision0;
      var tmp, i := StoreDigits(Magnitude(num, f), base, f.large);
      var stored := tmp[..i];
      if i > precision {
        precision := i;
      }
      size := size - precision;
      NumberPrinted(out, num, base, size0, precision0, f, Digits(Magnitude(num, f), base, f.large), precision, size);
      size := PutHead(size, sign, special, f);
      PutTail(precision - i, stored, size);
    }

    /** The cases 'c' and 's': a text in its field. */
    method PutJustified(s: string, width: int, left: bool)
      requires Valid() && -1 <= width < S31 && |s| < MAX_TEXT
      modifies `str, `text, buf
      ensures Valid() && text == old(text) + Justified(s, width, left)
    {
      hide Printer.Valid, Repeat;
      ghost var out, pad := text, Repeat(' ', width - |s|);
      assert out + "" == out && out + s + "" == out + s;
      var n := width - |s|;
      n := PutFill(!left, ' ', n);
      PutAll(s);
      n := PutFill(left, ' ', n);
      Assoc(out, s, pad);
      Assoc(out, pad, s);
    }

    /** The switch on the conversion character. */
    method Convert(d: Directive, conv: char)
      requires Valid() && -1 <= d.width < S31 && d.precision < S31 && |Converted(d, conv)| < MAX_TEXT
      modifies `str, `text, buf
      ensures Valid() && text == old(text) + Converted(d, conv)
    {
      hide Printer.Valid, NumberText, Justified, Integer, NextWord, NextText;
      assert text + "" == text;
      if IsInteger(conv) {
        var f := IntegerFlags(conv, d.flags);
        var ok := Number(Integer(d.qualifier, f.sign, d.args), BaseOf(conv), d.width, d.precision, f);
      } else if conv == 'c' {
        PutJustified([(NextWord(d.args) % 256) as char], d.width, d.flags.left);
      } else if conv == 's' {
        var s := NextText(d.args);
        var len := if d.precision >= 0 then Min(|s|, d.precision) else |s|;
        assert s[..|s|] == s;
        JustifiedLength(s[..len], d.width, d.flags.left);
        PutJustified(s[..len], d.width, d.flags.left);
      } else if conv == 'p' {
        var width, f := d.width, d.flags;
        if width == -1 {
          width, f := 8, f.(zeropad := true);
        }
        var ok := Number(NextWord(d.args), 16, width, d.precision, f);
      } else if conv == 'n' {
      } else if conv == '%' {
        Put('%');
      } else {
        PutAll(['%', conv]);
      }
    }

    lemma Cursor()
      requires Valid()
      ensures str == |text|
    {
    }

    /** The NUL behind the text, or over its last character if the buffer is full and the size not 0. */
    method Finish(size: nat)
      requires Valid() && (str < cap || (size > 0 <==> cap > 0))
      modifies buf
      ensures buf[..] == Terminated(text, cap, before)
    {
      if str < cap {
        buf[str] := '\0';
      } else if size > 0 {
        buf[cap - 1] := '\0';
      }
    }

    /** The main loop: print the whole format; `counts` are the numbers stored for "%n". */
    method Print(fmt0: string, args0: seq<Arg>) returns (counts: seq<nat>)
      requires Valid() && text == "" && Fits(fmt0, args0) && |Formatted(fmt0, args0, Output("", [])).text| < MAX_TEXT
      modifies `str, `text, buf
      ensures Valid() && Output(text, counts) == Formatted(fmt0, args0, Output("", []))
    {
      var fmt, args := fmt0, args0;
      counts := [];
      hide Printer.Valid, Converted, Parsed, ParsedFits;
      while fmt != ""
        invariant Fits(fmt, args)
        invariant Valid() && Formatted(fmt, args, Output(text, counts)) == Formatted(fmt0, args0, Output("", []))
        decreases |fmt|
      {
        if fmt[0] != '%' {
          Put(fmt[0]);
          fmt := fmt[1..];
          continue;
        }
        ParsedShrinks(fmt[1..], args);
        var d := ReadDirective(fmt[1..], args);
        if d.rest == "" {
          Put('%');
          fmt := "";
          continue;
        }
        var conv := d.rest[0];
        Cursor();
        DirectiveFits(fmt, args, Output(text, counts));
        if conv == 'n' {
          counts := counts + [str];
        }
        Convert(d, conv);
        fmt, args := d.rest[1..], if Consumes(conv) then Rest(d.args) else d.args;
      }
    }
  }

  /** The room a buffer has that starts at `addr`: memory ends at 2^32. */
  function Capacity(addr: nat, size: nat): (cap: nat)
    requires addr < U32
  {
    if addr + size <= U32 then size else U32 - addr
  }

  /** The room vsnprintf takes: at address 0 that is all memory, because `buf - 1` is the highest address. */
  function Room(addr: nat, size: nat): (cap: nat)
    requires addr < U32
  {
    if addr == 0 then U32 else Capacity(addr, size)
  }

  /**
   vsnprintf. Whatever the size, the buffer gets the unbounded text cut to the room, with a NUL behind
   it, and the result is the length of the unbounded text.
   */
  method Vsnprintf(buf: array<char>, addr: nat, size0: nat, fmt: string, args: seq<Arg>) returns (len: nat, counts: seq<nat>)
    requires addr < U32 && size0 < U32 && Room(addr, size0) <= buf.Length && Fits(fmt, args)
    requires var n := |Formatted(fmt, args, Output("", [])).text|; n < MAX_TEXT && addr + n < U32
    modifies buf
    ensures len == |Formatted(fmt, args, Output("", [])).text| && counts == Formatted(fmt, args, Output("", [])).counts
    ensures buf[..] == Terminated(Formatted(fmt, args, Output("", [])).text, Room(addr, size0), old(buf[..]))
  {
    var size := size0;
    var end := (addr + size - 1) % U32;
    EndIs(addr, size0);
    if end < (addr - 1) % U32 {
      end := U32 - 1;
      size := (end - addr + 1) % U32;
    }
    hide Formatted, Terminated, Fits, Room;
    var p := new Printer(buf, end + 1 - addr);
    counts := p.Print(fmt, args);
    p.Cursor();
    p.Finish(size);
    len := p.str;
  }

  lemma EndIs(addr: nat, size: nat)
    requires addr < U32 && size < U32
    ensures var end := (addr + size - 1) % U32; var wrapped := end < (addr - 1) % U32;
            && addr + Room(addr, size) == (if wrapped then U32 else end + 1)
            && (addr == 0 || (Room(addr, size) > 0 <==> (if wrapped then (U32 - addr) % U32 else size) > 0))
  {
  }

  /** The buffer is cut to its size for every text exactly if it does not start at address 0. */
  lemma CutIff(addr: nat, size: nat)
    requires addr < U32 && size < U32
    ensures (forall text: string, before: seq<char> | |before| == U32 && addr + |text| < U32 ::
               Terminated(text, Room(addr, size), before) == Terminated(text, Capacity(addr, size), before))
            <==> addr != 0
  {
    if addr == 0 {
      var text, before := Repeat('b', size), seq(U32, _ => 'a');
      RepeatMembers('b', size);
      NotCut(text, size, before);
    }
  }

  lemma NotCut(text: string, size: nat, before: seq<char>)
    requires |text| == size < U32 == |before| && before[0] != '\0' && '\0' !in text
    ensures Terminated(text, Room(0, size), before) != Terminated(text, Capacity(0, size), before)
  {
    var wide, cut := Terminated(text, U32, before), Terminated(text, size, before);
    if size == 0 {
      assert wide[0] == '\0';
    } else {
      assert cut[size - 1] == '\0' && wide[size - 1] == text[size - 1];
    }
  }

  /** A null buffer of size 0, which section 7.19.6.5 of ISO/IEC 9899:1999 allows: everything is written from address 0 on. */
  lemma NullBuffer(text: string, before: seq<char>)
    requires |before| == U32 && |text| < U32
    ensures Capacity(0, 0) == 0 && Terminated(text, Capacity(0, 0), before) == before
    ensures Terminated(text, Room(0, 0), before) == text + ['\0'] + before[|text| + 1..]
  {
  }

  // ---------------------------------------------------------------------------------------------
  // Laws of the format
  // ---------------------------------------------------------------------------------------------

  /** Text without a percent sign is printed as it is. */
  lemma {:induction false} LiteralText(fmt: string, args: seq<Arg>, counts: seq<nat>)
    requires '%' !in fmt
    ensures Formatted(fmt, args, Output("", counts)) == Output(fmt, counts)
    decreases |fmt|
  {
    LiteralAfter(fmt, args, Output("", counts));
    assert "" + fmt == fmt;
  }

  lemma {:induction false} LiteralAfter(fmt: string, args: seq<Arg>, done: Output)
    requires '%' !in fmt
    ensures Formatted(fmt, args, done) == done.(text := done.text + fmt)
    decreases |fmt|
  {
    if fmt == "" {
      assert done.text + fmt == done.text;
    } else {
      LiteralAfter(fmt[1..], args, done.(text := done.text + [fmt[0]]));
      assert done.text + [fmt[0]] + fmt[1..] == done.text + fmt;
    }
  }

  /** One directive at the end of a format. */
  lemma OneDirective(s: string, args: seq<Arg>)
    requires |Parsed(s, args).rest| == 1
    ensures Formatted("%" + s, args, Output("", [])).text == Converted(Parsed(s, args), Parsed(s, args).rest[0])
  {
    hide Converted, Parsed;
    assert ("%" + s)[1..] == s;
    var d := Parsed(s, args);
    assert d.rest[1..] == "";
    assert "" + Converted(d, d.rest[0]) == Converted(d, d.rest[0]);
  }

  lemma ParsedLongLong(d: Directive, c: char)
    requires d.rest == "ll" + [c]
    ensures ReadQualifier(ReadPrecision(ReadWidth(ReadFlags(d)))) == d.(qualifier := 'L', rest := [c])
  {
    hide Value, Run, Signed;
    assert At(d.rest, 0) == 'l' && At(d.rest, 1) == 'l' && d.rest[2..] == [c];
    assert ReadFlags(d) == d;
    assert ReadWidth(d) == d && ReadPrecision(d) == d;
  }

  /** Behind the percent sign of "%llu" or, with the alternate form, "%#llu". */
  function LongLongFormat(alt: bool, c: char): string {
    if alt then "#ll" + [c] else "ll" + [c]
  }

  lemma ParsedFormat(alt: bool, c: char, args: seq<Arg>)
    ensures Parsed(LongLongFormat(alt, c), args) == Directive(NO_FLAGS.(special := alt), -1, -1, 'L', [c], args)
  {
    var d := Directive(NO_FLAGS.(special := alt), -1, -1, '\0', "ll" + [c], args);
    ParsedLongLong(d, c);
    if alt {
      var e := Directive(NO_FLAGS, -1, -1, '\0', "#ll" + [c], args);
      assert At(e.rest, 0) == '#' && e.rest[1..] == "ll" + [c];
      assert ReadFlags(e) == ReadFlags(d);
    }
    hide ReadFlags, ReadWidth, ReadPrecision, ReadQualifier;
  }

  lemma LongLong(alt: bool, c: char, v: nat)
    requires v < U64 && (c == 'o' || c == 'x' || c == 'u')
    ensures Formatted("%" + LongLongFormat(alt, c), [Wide(v)], Output("", [])).text ==
            BaseText(BaseOf(c), NO_FLAGS.(special := alt)) + Digits(v, BaseOf(c), false)
  {
    hide Formatted, Parsed, NumberText, Digits, LongLongFormat, Converted, BaseOf, BaseText;
    var f := NO_FLAGS.(special := alt);
    ParsedFormat(alt, c, [Wide(v)]);
    OneDirective(LongLongFormat(alt, c), [Wide(v)]);
    ConvertedWide(Directive(f, -1, -1, 'L', [c], [Wide(v)]), c, v);
    PlainNumber(v, BaseOf(c), f);
  }

  lemma ConvertedWide(d: Directive, c: char, v: nat)
    requires v < U64 && (c == 'o' || c == 'x' || c == 'u') && d.qualifier == 'L' && d.args == [Wide(v)]
    requires !d.flags.large && !d.flags.sign
    ensures Converted(d, c) == NumberText(Signed(v, U64), BaseOf(c), d.width, d.precision, d.flags)
  {
    hide NumberText, BaseOf, Signed;
    assert IntegerFlags(c, d.flags) == d.flags;
  }

  /** Base 0 of simple_strtoull undoes "%llu", "%#llo" and "%#llx" for every 64-bit value. */
  lemma StrtoullUndoesFormat(v: nat)
    requires v < U64
    ensures var s := Formatted("%llu", [Wide(v)], Output("", [])).text; Parses(s, 0, v, |s|)
    ensures var s := Formatted("%#llo", [Wide(v)], Output("", [])).text; Parses(s, 0, v, |s|)
    ensures var s := Formatted("%#llx", [Wide(v)], Output("", [])).text; Parses(s, 0, v, |s|)
  {
    hide Digits, Parses, Formatted;
    DecimalUndone(v);
    OctalUndone(v);
    HexUndone(v);
  }

  lemma DecimalUndone(v: nat)
    requires v < U64
    ensures var s := Formatted("%llu", [Wide(v)], Output("", [])).text; Parses(s, 0, v, |s|)
  {
    hide Digits, Parses, Formatted;
    LongLong(false, 'u', v);
    assert "%" + LongLongFormat(false, 'u') == "%llu";
    UndoesDecimal(v, "");
    assert Digits(v, 10, false) + "" == "" + Digits(v, 10, false) == Digits(v, 10, false);
  }

  lemma OctalUndone(v: nat)
    requires v < U64
    ensures var s := Formatted("%#llo", [Wide(v)], Output("", [])).text; Parses(s, 0, v, |s|)
  {
    hide Digits, Parses, Formatted;
    LongLong(true, 'o', v);
    assert "%" + LongLongFormat(true, 'o') == "%#llo";
    UndoesOctal(v, "");
    assert "0" + Digits(v, 8, false) + "" == "0" + Digits(v, 8, false);
  }

  lemma HexUndone(v: nat)
    requires v < U64
    ensures var s := Formatted("%#llx", [Wide(v)], Output("", [])).text; Parses(s, 0, v, |s|)
  {
    hide Digits, Parses, Formatted;
    LongLong(true, 'x', v);
    assert "%" + LongLongFormat(true, 'x') == "%#llx";
    UndoesHex(v, "");
    assert "0x" + Digits(v, 16, false) + "" == "0x" + Digits(v, 16, false);
  }
}
