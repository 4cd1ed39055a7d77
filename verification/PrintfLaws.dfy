/**
 What formatted output means for its reader: signed numbers parse back, every conversion shows its own
 argument, fields are padded on the side asked for, and the buffer holds a C string.
 */
module PrintfLaws {
  import opened Arith
  import opened Sequences
  import opened Div64
  import opened Numerals
  import opened Vsnprintf
  import opened PrintfStandard
  import opened Words

  // ---------------------------------------------------------------------------------------------
  // Signed numbers
  // ---------------------------------------------------------------------------------------------

  /** The digits of an absolute value. */
  function Absolute(num: int): (n: nat) {
    if num < 0 then -num else num
  }

  /** A signed decimal without a field: the sign and the digits of the absolute value. */
  lemma PlainSigned(num: int, f: Flags)
    requires -(S63 as int) <= num < S63 && f.sign && !f.left && !f.zeropad
    ensures NumberText(num, 10, -1, -1, f) == StandardSign(num, f) + Digits(Absolute(num), 10, f.large)
  {
    SignIsStandard(num, 10, f);
    assert Magnitude(num, f) == Absolute(num);
    assert BaseText(10, f) == "";
    hide Digits, BaseText, Magnitude, SignText, StandardSign;
    TrimSign(StandardSign(num, f), Digits(Absolute(num), 10, f.large));
  }

  lemma TrimSign(sign: string, digits: string)
    ensures "" + sign + "" + "" + "" + digits + "" == sign + digits
  {
  }

  /** The first character: '-' exactly for a negative number, else '+' or a space exactly as the flags say. */
  lemma SignShown(num: int, f: Flags)
    requires -(S63 as int) <= num < S63 && f.sign && !f.left && !f.zeropad
    ensures var s := NumberText(num, 10, -1, -1, f);
            && s != "" && (s[0] == '-' <==> num < 0)
            && (s[0] == '+' <==> num >= 0 && f.plus) && (s[0] == ' ' <==> num >= 0 && f.space && !f.plus)
  {
    PlainSigned(num, f);
    FirstDigit(Absolute(num), 10, f.large);
    hide Digits, NumberText;
    var d := Digits(Absolute(num), 10, f.large);
    assert StandardSign(num, f) == "" ==> (StandardSign(num, f) + d)[0] == d[0];
  }

  /** The word that holds an int, or a long long. */
  function WordOf(v: int, modulus: nat): (w: nat)
    requires -(modulus as int) <= v < modulus
    ensures w < modulus
  {
    if v < 0 then v + modulus else v
  }

  /** "%d" of an int and "%lld" of a long long. */
  function SignedFormat(wide: bool): string {
    if wide then "%lld" else "%d"
  }

  function SignedArg(wide: bool, v: int): Arg
    requires if wide then -(S63 as int) <= v < S63 else -(S31 as int) <= v < S31
  {
    if wide then Wide(WordOf(v, U64)) else Word(WordOf(v, U32))
  }

  lemma SignedRead(wide: bool, v: int)
    requires if wide then -(S63 as int) <= v < S63 else -(S31 as int) <= v < S31
    ensures Integer(if wide then 'L' else '\0', true, [SignedArg(wide, v)]) == v
  {
  }

  lemma SignedParsed(wide: bool, args: seq<Arg>)
    ensures Parsed(SignedFormat(wide)[1..], args) == Directive(NO_FLAGS, -1, -1, if wide then 'L' else '\0', "d", args)
  {
    if wide {
      var d := Directive(NO_FLAGS, -1, -1, '\0', "lld", args);
      assert "lld" == "ll" + ['d'] && SignedFormat(wide)[1..] == "lld";
      ParsedLongLong(d, 'd');
    } else {
      assert SignedFormat(wide)[1..] == "d";
    }
  }

  lemma SignedText(wide: bool, v: int)
    requires if wide then -(S63 as int) <= v < S63 else -(S31 as int) <= v < S31
    ensures Formatted(SignedFormat(wide), [SignedArg(wide, v)], Output("", [])).text
            == (if v < 0 then "-" else "") + Digits(Absolute(v), 10, false)
  {
    var args := [SignedArg(wide, v)];
    SignedParsed(wide, args);
    SignedRead(wide, v);
    assert SignedFormat(wide) == "%" + SignedFormat(wide)[1..];
    OneDirective(SignedFormat(wide)[1..], args);
    var f := NO_FLAGS.(sign := true);
    assert IntegerFlags('d', NO_FLAGS) == f;
    hide Formatted, Parsed, Digits, NumberText, SignedFormat, SignedArg, Integer;
    PlainSigned(v, f);
  }

  /** simple_strtoll undoes "%d" for every int and "%lld" for every long long, and stops at the end. */
  lemma StrtollUndoesFormat(wide: bool, v: int, base: nat)
    requires if wide then -(S63 as int) <= v < S63 else -(S31 as int) <= v < S31
    requires base == 0 || base == 10
    ensures var s := Formatted(SignedFormat(wide), [SignedArg(wide, v)], Output("", [])).text;
            s != "" && (s[0] == '-' <==> v < 0) && ParsesSigned(s, base, v, |s|)
  {
    SignedText(wide, v);
    hide Formatted, Digits, SignedFormat, SignedArg, ParsesSigned;
    SignedNumeral(v, base);
  }

  lemma DecimalParses(n: nat, base: nat)
    requires n < U64 && (base == 0 || base == 10)
    ensures var d := Digits(n, 10, false); Parses(d, base, n, |d|) && IsDigit(d[0])
  {
    var d := Digits(n, 10, false);
    FirstDigit(n, 10, false);
    UndoesDecimal(n, "");
    UndoesDigits(n, 10, false, "");
    hide Digits, Parses;
    assert d + "" == d;
  }

  lemma SignedNumeral(v: int, base: nat)
    requires -(S63 as int) <= v < S63 && (base == 0 || base == 10)
    ensures var s := (if v < 0 then "-" else "") + Digits(Absolute(v), 10, false);
            s != "" && (s[0] == '-' <==> v < 0) && ParsesSigned(s, base, v, |s|)
  {
    DecimalParses(Absolute(v), base);
    hide Digits, Parses;
    var d := Digits(Absolute(v), 10, false);
    ModUnique(Absolute(v), U64, 0, Absolute(v));
    if v < 0 {
      assert ("-" + d)[1..] == d;
    } else {
      assert "" + d == d;
    }
  }

  // ---------------------------------------------------------------------------------------------
  // Each conversion and its argument
  // ---------------------------------------------------------------------------------------------

  /** How many values an integer argument of this qualifier has. */
  function Values(qualifier: char): nat {
    if qualifier == 'L' then U64 else if qualifier == 'h' then 0x1_0000 else U32
  }

  /** The argument is cut to the width of its qualifier and read as signed or unsigned; "Z" is always unsigned. */
  lemma IntegerMeans(qualifier: char, sign: bool, args: seq<Arg>)
    ensures var n, m := Integer(qualifier, sign, args), Values(qualifier);
            && n % m == (if qualifier == 'L' then NextWide(args) else NextWord(args)) % m
            && if qualifier == 'L' || (sign && qualifier != 'Z') then -(m / 2 as int) <= n < m / 2 else 0 <= n < m
  {
    SignedMod(NextWide(args), U64);
    SignedMod(NextWord(args), U32);
    SignedMod(NextWord(args) % 0x1_0000, 0x1_0000);
    hide NextWord, NextWide, Signed;
  }

  lemma SignedMod(n: nat, m: nat)
    requires n < m && m % 2 == 0
    ensures Signed(n, m) % m == n % m && -(m / 2 as int) <= Signed(n, m) < m / 2
  {
    ModUnique(n, m, 0, n);
    ModUnique(Signed(n, m), m, if n < m / 2 then 0 else -1, n);
  }

  /** "%c" prints the character with the low byte of its argument. */
  lemma CharText(w: nat)
    requires w < U32
    ensures Formatted("%c", [Word(w)], Output("", [])).text == [(w % 256) as char]
  {
    hide Formatted, Rendered;
    BareDirective('c');
    Printed("%c", NO_FLAGS, -1, -1, 'c', [Word(w)]);
    JustifiedAs([(w % 256) as char], -1, false);
  }

  lemma BareDirective(conv: char)
    ensures Rendered(NO_FLAGS, -1, -1, '\0') + [conv] == [conv] && "%" + [conv] == ['%', conv]
  {
  }

  lemma JustifiedAs(s: string, width: int, left: bool)
    requires width <= |s|
    ensures Justified(s, width, left) == s
  {
    assert "" + s == s + "" == s;
  }

  /** A text in a field: on the side asked for, and spaces on the other. */
  lemma FieldText(s: string, width: int, left: bool)
    ensures var t := Justified(s, width, left); var n := |t| - |s|;
            && n >= 0 && |t| == (if width > |s| then width else |s|)
            && (if left then t[..|s|] == s else t[n..] == s)
            && forall i :: (if left then |s| <= i < |t| else 0 <= i < n) ==> t[i] == ' '
  {
    var t, pad := Justified(s, width, left), Repeat(' ', width - |s|);
    RepeatMembers(' ', width - |s|);
    forall i | if left then |s| <= i < |t| else 0 <= i < |t| - |s| ensures t[i] == ' ' {
      assert t[i] == pad[if left then i - |s| else i] && t[i] in pad;
    }
    hide Repeat;
  }

  /** "%s" prints its text, cut to the precision if there is one and put into its field; NULL has a text too. */
  lemma StringText(t: Option<string>, f: Flags, width: int, precision: int)
    requires !f.sign && !f.large && (width == -1 || width > 0) && precision >= -1
    ensures var s := if t.Some? then t.value else "<NULL>";
            Formatted("%" + (Rendered(f, width, precision, '\0') + ['s']), [Text(t)], Output("", [])).text
            == Justified(if 0 <= precision < |s| then s[..precision] else s, width, f.left)
  {
    hide Formatted, Rendered, Justified;
    Printed("%" + (Rendered(f, width, precision, '\0') + ['s']), f, width, precision, 's', [Text(t)]);
  }

  /** "%%" prints a percent sign and takes no argument. */
  lemma PercentText(fmt: string, args: seq<Arg>)
    ensures Formatted("%%" + fmt, args, Output("", [])).text == "%" + Formatted(fmt, args, Output("", [])).text
  {
    var all := "%%" + fmt;
    assert all[1..] == "%" + fmt && ("%" + fmt)[0] == '%' && ("%" + fmt)[1..] == fmt;
    var d := Directive(NO_FLAGS, -1, -1, '\0', "%" + fmt, args);
    PlainDirective("%" + fmt, args);
    hide Parsed;
    assert "" + "%" == "%";
    FormattedExtends(fmt, args, Output("%", []), []);
  }

  /** A conversion without anything between it and the percent sign. */
  lemma PlainDirective(s: string, args: seq<Arg>)
    requires var c := At(s, 0); !IsDigit(c) && !IsFlag(c) && c != '.' && c != '*' && !IsQualifier(c)
    ensures Parsed(s, args) == Directive(NO_FLAGS, -1, -1, '\0', s, args)
  {
    RenderedParsed(NO_FLAGS, -1, -1, '\0', s, args);
    assert Rendered(NO_FLAGS, -1, -1, '\0') + s == s;
  }

  /** "%n" prints nothing and stores how many characters came before it. */
  lemma {:induction false} CountStored(lit: string, args: seq<Arg>, done: string)
    requires '%' !in lit
    ensures Formatted(lit + "%n", args, Output(done, [])) == Output(done + lit, [|done + lit|])
    decreases |lit|
  {
    if lit == "" {
      assert lit + "%n" == "%n" && "%n"[1..] == "n" && done + lit == done && "n"[1..] == "" && done + "" == done;
      PlainDirective("n", args);
      hide Parsed;
    } else {
      assert (lit + "%n")[0] == lit[0] && (lit + "%n")[1..] == lit[1..] + "%n";
      assert done + [lit[0]] + lit[1..] == done + lit;
      CountStored(lit[1..], args, done + [lit[0]]);
    }
  }

  /** Every other conversion takes exactly one argument, and the next directive the next one. */
  lemma ArgumentsInOrder(f: Flags, width: int, precision: int, qualifier: char, conv: char, fmt: string, a: Arg, args: seq<Arg>)
    requires !f.sign && !f.large && (width == -1 || width > 0) && precision >= -1
    requires qualifier == '\0' || IsQualifier(qualifier)
    requires IsInteger(conv) || conv == 'c' || conv == 's' || conv == 'p'
    ensures var s := "%" + (Rendered(f, width, precision, qualifier) + [conv]);
            Formatted(s + fmt, [a] + args, Output("", [])).text
            == Formatted(s, [a], Output("", [])).text + Formatted(fmt, args, Output("", [])).text
  {
    var r := Rendered(f, width, precision, qualifier);
    RenderedParsed(f, width, precision, qualifier, [conv] + fmt, [a] + args);
    RenderedParsed(f, width, precision, qualifier, [conv] + "", [a]);
    hide Rendered, Converted, Formatted, Parsed;
    var d := Directive(f, width, precision, qualifier, [conv] + fmt, [a] + args);
    var e := Directive(f, width, precision, qualifier, [conv] + "", [a]);
    SameConverted(d, e, conv, a);
    DirectiveFirst(r, conv, fmt, [a] + args, d);
    DirectiveFirst(r, conv, "", [a], e);
    assert Rest([a] + args) == args && Rest([a]) == [];
    assert "%" + (r + [conv]) + "" == "%" + (r + [conv]);
    NoFormat([]);
    assert Converted(e, conv) + "" == Converted(e, conv);
  }

  lemma NoFormat(args: seq<Arg>)
    ensures Formatted("", args, Output("", [])).text == ""
  {
  }

  lemma DirectiveFirst(body: string, conv: char, fmt: string, args: seq<Arg>, d: Directive)
    requires Parsed(body + ([conv] + fmt), args) == d && d.rest == [conv] + fmt && d.args == args
    requires Consumes(conv) && conv != 'n'
    ensures Formatted("%" + (body + [conv]) + fmt, args, Output("", [])).text
            == Converted(d, conv) + Formatted(fmt, Rest(args), Output("", [])).text
  {
    hide *;
    DirectiveHead(body, conv, fmt);
    FormattedStep("%" + (body + [conv]) + fmt, args, d);
    assert d.rest[0] == conv && d.rest[1..] == fmt;
    FormattedExtends(fmt, Rest(args), Output(Converted(d, conv), []), []);
  }

  lemma DirectiveHead(body: string, conv: char, fmt: string)
    ensures var all := "%" + (body + [conv]) + fmt; all[1..] == body + ([conv] + fmt) && all[0] == '%'
  {
  }

  lemma FormattedStep(all: string, args: seq<Arg>, d: Directive)
    requires all != "" && all[0] == '%' && Parsed(all[1..], args) == d && d.rest != "" && Consumes(d.rest[0]) && d.rest[0] != 'n'
    ensures Formatted(all, args, Output("", [])) == Formatted(d.rest[1..], Rest(d.args), Output(Converted(d, d.rest[0]), []))
  {
    hide Parsed, Converted, Rest, Consumes;
    assert "" + Converted(d, d.rest[0]) == Converted(d, d.rest[0]);
  }

  lemma SameConverted(d: Directive, e: Directive, conv: char, a: Arg)
    requires d.flags == e.flags && d.width == e.width && d.precision == e.precision && d.qualifier == e.qualifier
    requires d.args != [] && e.args != [] && d.args[0] == e.args[0] == a
    ensures Converted(d, conv) == Converted(e, conv)
  {
    hide NumberText, Justified;
    assert NextWord(d.args) == NextWord(e.args) && NextWide(d.args) == NextWide(e.args) && NextText(d.args) == NextText(e.args);
    assert forall q, sign :: Integer(q, sign, d.args) == Integer(q, sign, e.args);
  }

  /** A percent sign at the end of the format prints itself. */
  lemma LonePercent(lit: string, args: seq<Arg>)
    requires '%' !in lit
    ensures Formatted(lit + "%", args, Output("", [])).text == lit + "%"
  {
    PercentAfter(lit, args, "");
    assert "" + lit + "%" == lit + "%";
  }

  lemma {:induction false} PercentAfter(lit: string, args: seq<Arg>, done: string)
    requires '%' !in lit
    ensures Formatted(lit + "%", args, Output(done, [])).text == done + lit + "%"
    decreases |lit|
  {
    if lit == "" {
      assert lit + "%" == "%" && "%"[1..] == "" && done + lit == done;
      PlainDirective("", args);
      hide Parsed;
    } else {
      assert (lit + "%")[0] == lit[0] && (lit + "%")[1..] == lit[1..] + "%";
      assert done + [lit[0]] + lit[1..] == done + lit;
      PercentAfter(lit[1..], args, done + [lit[0]]);
    }
  }

  /** A conversion that does not exist prints itself and takes no argument. */
  lemma UnknownConversion(conv: char, fmt: string, args: seq<Arg>)
    requires !Consumes(conv) && conv != '%'
    requires !IsDigit(conv) && !IsFlag(conv) && conv != '.' && conv != '*' && !IsQualifier(conv)
    ensures Formatted(['%', conv] + fmt, args, Output("", [])).text == ['%', conv] + Formatted(fmt, args, Output("", [])).text
  {
    var all := ['%', conv] + fmt;
    assert all[1..] == [conv] + fmt && ([conv] + fmt)[1..] == fmt;
    PlainDirective([conv] + fmt, args);
    hide Parsed;
    assert "" + ['%', conv] == ['%', conv];
    FormattedExtends(fmt, args, Output(['%', conv], []), []);
  }

  function Upper(s: string): (r: string)
    ensures |r| == |s|
  {
    seq(|s|, i requires 0 <= i < |s| => ToUpper(s[i]))
  }

  lemma UpperJoin(s: string, t: string)
    ensures Upper(s + t) == Upper(s) + Upper(t)
  {
  }

  lemma {:induction false} UpperDigits(n: nat)
    ensures Upper(Digits(n, 16, false)) == Digits(n, 16, true)
    decreases n
  {
    hide Quotient, Remainder;
    Shrinks(n, 16);
    UpperDigit(Remainder(n, 16));
    if n >= 16 {
      UpperDigits(Quotient(n, 16));
      UpperJoin(Digits(Quotient(n, 16), 16, false), [DigitChar(Remainder(n, 16), false)]);
    }
  }

  lemma UpperDigit(d: nat)
    requires d < 16
    ensures Upper([DigitChar(d, false)]) == [DigitChar(d, true)]
  {
  }

  /** Nothing in a field of this kind has a case but the digits and the prefix. */
  lemma UpperLaid(sign: string, prefix: string, body: string, width: int, zero: bool, left: bool)
    requires Upper(sign) == sign
    ensures Upper(Laid(sign, prefix, body, width, zero, left)) == Laid(sign, Upper(prefix), Upper(body), width, zero, left)
  {
    var pad := width - |sign| - |prefix| - |body|;
    RepeatMembers(' ', pad);
    RepeatMembers('0', pad);
    UpperSame(Repeat(' ', pad));
    UpperSame(Repeat('0', pad));
    UpperSame("");
    hide Repeat, Upper;
    var a, b, c := Fill(!left && !zero, ' ', pad), Fill(zero, '0', pad), Fill(left, ' ', pad);
    UpperJoin(a, sign);
    UpperJoin(a + sign, prefix);
    UpperJoin(a + sign + prefix, b);
    UpperJoin(a + sign + prefix + b, body);
    UpperJoin(a + sign + prefix + b + body, c);
  }

  lemma UpperSame(s: string)
    requires forall c :: c in s ==> ToUpper(c) == c
    ensures Upper(s) == s
  {
  }

  lemma UpperRow(mag: nat, precision: int, f: Flags)
    requires !f.large
    ensures Upper(Row(mag, 16, precision, f)) == Row(mag, 16, precision, f.(large := true))
  {
    var d := Digits(mag, 16, false);
    UpperDigits(mag);
    RepeatMembers('0', precision - |d|);
    UpperSame(Repeat('0', precision - |d|));
    UpperJoin(Repeat('0', precision - |d|), d);
    hide Digits, Repeat, Upper;
  }

  /** "%X" is "%x" in capitals, and "%i" is "%d". */
  lemma OtherSpellings(d: Directive)
    requires !d.flags.large && !d.flags.sign
    ensures Converted(d, 'X') == Upper(Converted(d, 'x'))
    ensures Converted(d, 'i') == Converted(d, 'd')
  {
    var num := Integer(d.qualifier, false, d.args);
    var f, g := d.flags, d.flags.(large := true);
    assert IntegerFlags('x', f) == f && IntegerFlags('X', f) == g;
    NumberIsLaid(num, 16, d.width, d.precision, f);
    NumberIsLaid(num, 16, d.width, d.precision, g);
    hide Integer, NumberText, Row, Laid, Upper;
    assert Magnitude(num, g) == Magnitude(num, f) && SignText(num, f) == SignText(num, g) == "";
    hide Magnitude;
    UpperSame("");
    UpperPrefix(f);
    UpperRow(Magnitude(num, f), d.precision, f);
    UpperLaid("", BaseText(16, f), Row(Magnitude(num, f), 16, d.precision, f), d.width, f.zeropad && !f.left, f.left);
  }

  lemma UpperPrefix(f: Flags)
    requires !f.large
    ensures Upper(BaseText(16, f)) == BaseText(16, f.(large := true))
  {
  }

  // ---------------------------------------------------------------------------------------------
  // Widths and precisions from arguments
  // ---------------------------------------------------------------------------------------------

  /** A width argument is read like the same number in the format; a negative one like "-" and its absolute value. */
  lemma StarWidth(d: Directive, w: nat, t: string)
    requires 0 < w < S31 && d.rest == "*" + t && d.args != [] && !IsDigit(At(t, 0))
    requires d.width == -1
    ensures d.args[0] == Word(w) ==>
      ReadWidth(d) == ReadWidth(d.(rest := Digits(w, 10, false) + t)).(args := Rest(d.args))
    ensures d.args[0] == Word(U32 - w) ==>
      ReadWidth(d) == ReadWidth(d.(rest := Digits(w, 10, false) + t, flags := d.flags.(left := true))).(args := Rest(d.args))
  {
    hide Digits, ReadWidth;
    DigitsWidth(d.(rest := Digits(w, 10, false) + t), w, t);
    DigitsWidth(d.(rest := Digits(w, 10, false) + t, flags := d.flags.(left := true)), w, t);
    StarWidthRead(d, w, t);
  }

  lemma DigitsWidth(d: Directive, w: nat, t: string)
    requires d.rest == Digits(w, 10, false) + t && !IsDigit(At(t, 0))
    ensures ReadWidth(d) == d.(width := w, rest := t)
  {
    hide Digits, Value, Run;
    NumeralRead(w, t);
  }

  lemma StarWidthRead(d: Directive, w: nat, t: string)
    requires 0 < w < S31 && d.rest == "*" + t && d.args != []
    ensures d.args[0] == Word(w) ==> ReadWidth(d) == d.(width := w, rest := t, args := Rest(d.args))
    ensures d.args[0] == Word(U32 - w) ==>
      ReadWidth(d) == d.(width := w, flags := d.flags.(left := true), rest := t, args := Rest(d.args))
  {
    hide Value, Run;
    ModUnique(w, U32, 0, w);
    ModUnique(U32 - w, U32, 0, U32 - w);
    assert d.rest[1..] == t && At(d.rest, 0) == '*';
  }

  /** So is a precision argument that is not negative. */
  lemma StarPrecision(d: Directive, p: nat, t: string)
    requires p < S31 && d.rest == ".*" + t && d.args != [] && d.args[0] == Word(p) && !IsDigit(At(t, 0))
    ensures ReadPrecision(d) == ReadPrecision(d.(rest := "." + (Digits(p, 10, false) + t))).(args := Rest(d.args))
  {
    NumeralRead(p, t);
    var u := Digits(p, 10, false) + t;
    hide Digits, Value, Run, ReadPrecision;
    DotRead(d.(rest := "." + u), p, u, t);
    StarRead(d, p, t);
  }

  lemma StarRead(d: Directive, p: nat, t: string)
    requires p < S31 && d.rest == ".*" + t && d.args != [] && d.args[0] == Word(p)
    ensures ReadPrecision(d) == d.(precision := p, rest := t, args := Rest(d.args))
  {
    ModUnique(p, U32, 0, p);
    assert d.rest[1..] == "*" + t && ("*" + t)[1..] == t;
    hide Value, Run;
  }

  // ---------------------------------------------------------------------------------------------
  // Pointers
  // ---------------------------------------------------------------------------------------------

  lemma {:induction false} LeadingZeros(n: nat, s: string, base: nat)
    requires 2 <= base <= 16 && AllDigits(s, base)
    ensures AllDigits(Repeat('0', n) + s, base) && Value(Repeat('0', n) + s, base) == Value(s, base)
    decreases n + |s|
  {
    hide Horner, DigitOf, DigitValue;
    ZeroDigit(base);
    var z := Repeat('0', n);
    if s == "" {
      assert z + s == z;
      if n > 0 {
        LeadingZeros(n - 1, "", base);
        assert Repeat('0', n - 1) + "" == Repeat('0', n - 1);
        ValueAppend(Repeat('0', n - 1), '0', base);
      }
    } else {
      var last := |s| - 1;
      LeadingZeros(n, s[..last], base);
      assert z + s == (z + s[..last]) + [s[last]] && s == s[..last] + [s[last]];
      ValueAppend(z + s[..last], s[last], base);
      ValueAppend(s[..last], s[last], base);
    }
  }

  lemma ZeroDigit(base: nat)
    requires 2 <= base
    ensures DigitOf('0', base) && DigitValue('0') == 0 && Horner(0, base, 0) == 0
  {
  }

  lemma {:induction false} HexLength(n: nat, k: nat)
    requires n < Pow2(4 * k) && k > 0
    ensures |Digits(n, 16, false)| <= k
    decreases k
  {
    if n >= 16 {
      assert Pow2(4) == 16;
      Pow2Add(4 * (k - 1), 4);
      Shrinks(n, 16);
      assert n / 16 == Quotient(n, 16);
      assert k > 1;
      HexLength(Quotient(n, 16), k - 1);
    }
  }

  /** "%p" prints all eight hexadecimal digits of its argument. */
  lemma PointerText(w: nat)
    requires w < U32
    ensures var s := Formatted("%p", [Word(w)], Output("", [])).text;
            |s| == 8 && AllDigits(s, 16) && Value(s, 16) == w
  {
    hide Formatted, Rendered, NumberText, Digits, Value, Repeat;
    BareDirective('p');
    Printed("%p", NO_FLAGS, -1, -1, 'p', [Word(w)]);
    ModUnique(w, U32, 0, w);
    hide Converted;
    PointerConverted(w);
    PointerDigits(w);
    PointerNumber(w);
  }

  lemma PointerConverted(w: nat)
    requires w < U32
    ensures Converted(Directive(NO_FLAGS, -1, -1, '\0', "p", [Word(w)]), 'p') == NumberText(w, 16, 8, -1, NO_FLAGS.(zeropad := true))
  {
    hide NumberText;
    ModUnique(w, U32, 0, w);
  }

  lemma PointerDigits(w: nat)
    requires w < U32
    ensures var d := Digits(w, 16, false);
            |d| <= 8 && AllDigits(Repeat('0', 8 - |d|) + d, 16) && Value(Repeat('0', 8 - |d|) + d, 16) == w
  {
    hide Digits, Value, Repeat, DigitOf;
    var d := Digits(w, 16, false);
    U32IsPower();
    HexLength(w, 8);
    DigitsValue(w, 16, false);
    LeadingZeros(8 - |d|, d, 16);
  }

  lemma U32IsPower()
    ensures U32 == Pow2(32)
  {
    assert Pow2(8) == 256;
    Pow2Add(8, 8);
    Pow2Add(16, 16);
  }

  lemma PointerNumber(w: nat)
    requires w < U32 && |Digits(w, 16, false)| <= 8
    ensures NumberText(w, 16, 8, -1, NO_FLAGS.(zeropad := true)) == Repeat('0', 8 - |Digits(w, 16, false)|) + Digits(w, 16, false)
  {
    hide Digits;
    var d := Digits(w, 16, false);
    assert Repeat('0', 0) == "";
    assert "" + "" + "" + Repeat('0', 8 - |d|) + "" + d + "" == Repeat('0', 8 - |d|) + d;
  }

  // ---------------------------------------------------------------------------------------------
  // The buffer
  // ---------------------------------------------------------------------------------------------

  /** The C string in a buffer: what comes before the first NUL. */
  function CString(b: seq<char>): (s: string) {
    if b == [] || b[0] == '\0' then "" else [b[0]] + CString(b[1..])
  }

  lemma {:induction false} CStringIs(s: string, rest: seq<char>)
    requires '\0' !in s
    ensures CString(s + ['\0'] + rest) == s
  {
    var b := s + ['\0'] + rest;
    if s != "" {
      assert b[0] == s[0] && s[0] in s && b[1..] == s[1..] + ['\0'] + rest;
      CStringIs(s[1..], rest);
    }
  }

  /**
   What the buffer holds afterwards: as a C string the text, or as much of it as leaves room for the NUL,
   and what it held before behind that.
   */
  lemma BufferHolds(text: string, cap: nat, before: seq<char>)
    requires 0 < cap <= |before| && '\0' !in text
    ensures var b := Terminated(text, cap, before);
            && |b| == |before|
            && CString(b) == (if |text| < cap then text else text[..cap - 1])
            && forall i :: (if |text| < cap then |text| + 1 else cap) <= i < |b| ==> b[i] == before[i]
  {
    var k := Min(cap - 1, |text|);
    assert '\0' !in text[..k];
    CStringIs(text[..k], before[k + 1..]);
    assert text[..|text|] == text;
  }
}
