/**
 vsnprintf against section 7.19.6.1 of ISO/IEC 9899:1999: for which flags, values and precisions the
 integer conversions print what the standard asks for, and that a directive is read as it was written.
 */
module PrintfStandard {
  import opened Sequences
  import opened Numerals
  import opened Vsnprintf
  import opened Words

  // ---------------------------------------------------------------------------------------------
  // The standard's integer text
  // ---------------------------------------------------------------------------------------------

  /** A number in its field; `zero` pads with zeros behind the prefix. */
  function Laid(sign: string, prefix: string, body: string, width: int, zero: bool, left: bool): string {
    var pad := width - |sign| - |prefix| - |body|;
    Fill(!left && !zero, ' ', pad) + sign + prefix + Fill(zero, '0', pad) + body + Fill(left, ' ', pad)
  }

  /** The digits, at least as many as the precision says. */
  function Row(mag: nat, base: nat, precision: int, f: Flags): string
    requires 2 <= base <= 36
  {
    var digits := Digits(mag, base, f.large);
    Repeat('0', precision - |digits|) + digits
  }

  /** The sign of a signed conversion: always for a negative number, else "+" before " ". */
  function StandardSign(num: int, f: Flags): string {
    if f.sign && num < 0 then "-" else if f.sign && f.plus then "+" else if f.sign && f.space then " " else ""
  }

  /** The prefix that "#" gives a hexadecimal number. */
  function StandardPrefix(mag: nat, base: nat, f: Flags): string {
    if !f.special || base != 16 || mag == 0 then "" else if f.large then "0X" else "0x"
  }

  /**
   Section 7.19.6.1 for d, i, o, u, x and X: zero with a precision of zero has no digit; "#" makes the
   first octal digit a zero, and gives a nonzero hexadecimal number a prefix; "0" is ignored beside "-"
   or a precision.
   */
  function StandardText(num: int, base: nat, width: int, precision: int, f: Flags): string
    requires -(S63 as int) <= num < S63 && (base == 8 || base == 10 || base == 16)
  {
    var mag := Magnitude(num, f);
    var digits := if mag == 0 && precision == 0 then "" else Row(mag, base, precision, f);
    var body := if f.special && base == 8 && (digits == "" || digits[0] != '0') then "0" + digits else digits;
    Laid(StandardSign(num, f), StandardPrefix(mag, base, f), body, width, f.zeropad && !f.left && precision < 0, f.left)
  }

  /** Whether number() prints that, from the flags, the value, its number of digits and the precision. */
  predicate Conforms(num: int, base: nat, width: int, precision: int, f: Flags)
    requires -(S63 as int) <= num < S63 && (base == 8 || base == 10 || base == 16)
  {
    var mag, sign, zero := Magnitude(num, f), |SignText(num, f)|, f.zeropad && !f.left;
    var n := |Digits(mag, base, f.large)|;
    if f.special && base == 16 && mag == 0 then false
    else if f.special && base == 8 && (mag == 0 || precision > n) then mag == 0 && precision < 0 && zero && width >= sign + 2
    else if mag == 0 && precision == 0 then false
    else !(zero && precision >= 0 && width > sign + |BaseText(base, f)| + if precision > n then precision else n)
  }

  // ---------------------------------------------------------------------------------------------
  // Laying out
  // ---------------------------------------------------------------------------------------------

  function Zeros(s: string): nat {
    multiset(s)['0']
  }

  lemma {:induction false} RepeatZeros(c: char, n: int)
    ensures Zeros(Repeat(c, n)) == if c == '0' && n > 0 then n else 0
  {
    if n > 0 { RepeatZeros(c, n - 1); }
  }

  lemma {:induction false} RepeatCommutes(c: char, n: int)
    ensures [c] + Repeat(c, n) == Repeat(c, n) + [c]
  {
    if n > 0 {
      RepeatCommutes(c, n - 1);
      assert [c] + Repeat(c, n) == [c] + Repeat(c, n - 1) + [c];
    }
  }

  lemma LaidZeros(sign: string, prefix: string, body: string, width: int, zero: bool, left: bool)
    ensures var pad := width - |sign| - |prefix| - |body|;
            Zeros(Laid(sign, prefix, body, width, zero, left)) ==
            Zeros(sign) + Zeros(prefix) + Zeros(body) + if zero && pad > 0 then pad else 0
  {
    var pad := width - |sign| - |prefix| - |body|;
    RepeatZeros(' ', pad);
    RepeatZeros('0', pad);
    hide Repeat;
  }

  lemma LaidMembers(sign: string, prefix: string, body: string, width: int, zero: bool, left: bool, c: char)
    requires c != ' ' && c != '0'
    ensures c in Laid(sign, prefix, body, width, zero, left) <==> c in sign || c in prefix || c in body
  {
    var pad := width - |sign| - |prefix| - |body|;
    RepeatMembers(' ', pad);
    RepeatMembers('0', pad);
    hide Repeat;
  }

  /** Without room to fill, it does not matter what with. */
  lemma LaidTight(sign: string, prefix: string, body: string, width: int, zero: bool)
    requires width <= |sign| + |prefix| + |body|
    ensures Laid(sign, prefix, body, width, zero, false) == Laid(sign, prefix, body, width, false, false)
  {
  }

  /** A zero in front of the digits may stand before or behind the padding zeros. */
  lemma LaidOctal(sign: string, body: string, width: int, zero: bool, left: bool)
    ensures Laid(sign, "0", body, width, zero, left) == Laid(sign, "", "0" + body, width, zero, left)
  {
    var pad := width - |sign| - 1 - |body|;
    RepeatCommutes('0', pad);
    hide Repeat;
    var z := Fill(zero, '0', pad);
    assert "0" + z == z + "0";
    Swap(Fill(!left && !zero, ' ', pad) + sign, z, body, Fill(left, ' ', pad));
  }

  lemma Swap(a: string, z: string, body: string, b: string)
    requires "0" + z == z + "0"
    ensures a + "0" + z + body + b == a + "" + z + ("0" + body) + b
  {
    assert a + "0" + z == a + ("0" + z);
    assert a + "" + z + ("0" + body) == a + (z + "0") + body;
  }

  /** A lone octal zero that fills its field with zeros: one zero more or less in front of the padding. */
  lemma LaidZero(sign: string, width: int)
    requires width >= |sign| + 2
    ensures Laid(sign, "0", "0", width, true, false) == Laid(sign, "", "0", width, true, false)
  {
    LaidOctal(sign, "0", width, true, false);
    var pad := width - |sign| - 2;
    assert Repeat('0', pad + 1) == Repeat('0', pad) + ['0'];
    hide Repeat;
    assert Repeat('0', pad) + ("0" + "0") == Repeat('0', pad + 1) + "0";
    Regroup(sign, Repeat('0', pad), Repeat('0', pad + 1));
  }

  lemma Regroup(sign: string, a: string, b: string)
    requires a + ("0" + "0") == b + "0"
    ensures "" + sign + "" + a + ("0" + "0") + "" == "" + sign + "" + b + "0" + ""
  {
    assert "" + sign + "" + a + ("0" + "0") + "" == sign + (a + ("0" + "0"));
    assert "" + sign + "" + b + "0" + "" == sign + (b + "0");
  }

  /** A zero more than the other text has anywhere. */
  lemma ExtraZero(sign: string, row: string, width: int, zero: bool, zero1: bool, left: bool)
    requires zero1 ==> width <= |sign| + |row|
    ensures Laid(sign, "0", row, width, zero, left) != Laid(sign, "", row, width, zero1, left)
  {
    hide Laid;
    LaidZeros(sign, "0", row, width, zero, left);
    LaidZeros(sign, "", row, width, zero1, left);
  }

  lemma MissingZero(sign: string, width: int, zero: bool, left: bool)
    ensures Laid(sign, "", "0", width, zero, left) != Laid(sign, "", "", width, false, left)
  {
    hide Laid;
    LaidZeros(sign, "", "0", width, zero, left);
    LaidZeros(sign, "", "", width, false, left);
  }

  lemma FillIff(sign: string, prefix: string, body: string, width: int, zero: bool, zero1: bool, left: bool)
    requires (zero1 ==> zero) && (zero ==> !left)
    ensures Laid(sign, prefix, body, width, zero, left) == Laid(sign, prefix, body, width, zero1, left)
            <==> !(zero && !zero1 && width > |sign| + |prefix| + |body|)
  {
    if zero && !zero1 {
      LaidZeros(sign, prefix, body, width, zero, left);
      LaidZeros(sign, prefix, body, width, zero1, left);
      if width <= |sign| + |prefix| + |body| { LaidTight(sign, prefix, body, width, zero); }
    }
    hide Laid;
  }

  // ---------------------------------------------------------------------------------------------
  // number() against the standard
  // ---------------------------------------------------------------------------------------------

  lemma SignIsStandard(num: int, base: nat, f: Flags)
    requires -(S63 as int) <= num < S63
    ensures SignText(num, f) == StandardSign(num, f)
    ensures !f.special || base == 10 || (base == 16 && Magnitude(num, f) != 0) ==>
      BaseText(base, f) == StandardPrefix(Magnitude(num, f), base, f)
    ensures !f.special || base != 16 || Magnitude(num, f) == 0 ==> StandardPrefix(Magnitude(num, f), base, f) == ""
  {
    hide Magnitude;
  }

  lemma Rows(mag: nat, base: nat, precision: int, f: Flags)
    requires base == 8 || base == 10 || base == 16
    ensures var n, row := |Digits(mag, base, f.large)|, Row(mag, base, precision, f);
            && |row| == (if precision > n then precision else n) && row != ""
            && (row[0] == '0' <==> mag == 0 || precision > n)
    ensures mag == 0 && precision <= 1 ==> Row(mag, base, precision, f) == "0"
    ensures mag == 0 ==> Row(mag, base, precision, f) == Repeat('0', precision - 1) + "0"
  {
    FirstDigit(mag, base, f.large);
    assert mag == 0 ==> Digits(mag, base, f.large) == "0";
    hide Digits;
    var n := precision - |Digits(mag, base, f.large)|;
    assert n > 0 ==> Repeat('0', n)[0] in Repeat('0', n);
    RepeatMembers('0', n);
    hide Repeat;
  }

  lemma NumberIsLaid(num: int, base: nat, width: int, precision: int, f: Flags)
    requires -(S63 as int) <= num < S63 && 2 <= base <= 36
    ensures NumberText(num, base, width, precision, f) ==
            Laid(SignText(num, f), BaseText(base, f), Row(Magnitude(num, f), base, precision, f), width, f.zeropad && !f.left, f.left)
  {
    hide Digits, Magnitude, SignText, BaseText;
    var digits := Digits(Magnitude(num, f), base, f.large);
    var least := if precision > |digits| then precision else |digits|;
    assert Repeat('0', least - |digits|) == Repeat('0', precision - |digits|);
    var pad := width - |SignText(num, f)| - |BaseText(base, f)| - least;
    hide Repeat;
    Assoc(Fill(!f.left && !f.zeropad, ' ', pad) + SignText(num, f) + BaseText(base, f) + Fill(!f.left && f.zeropad, '0', pad),
          Repeat('0', precision - |digits|), digits);
  }

  /** "#" on a hexadecimal zero. */
  lemma HexZeroDiffers(num: int, width: int, precision: int, f: Flags)
    requires -(S63 as int) <= num < S63 && f.special && Magnitude(num, f) == 0
    ensures NumberText(num, 16, width, precision, f) != StandardText(num, 16, width, precision, f)
  {
    hide Laid, Repeat, NumberText, Row, Magnitude;
    Rows(0, 16, precision, f);
    RepeatMembers('0', precision - 1);
    NumberIsLaid(num, 16, width, precision, f);
    var x, sign, row := if f.large then 'X' else 'x', SignText(num, f), Row(0, 16, precision, f);
    assert x !in sign && x !in row;
    assert BaseText(16, f) == ['0', x];
    var digits := if precision == 0 then "" else row;
    LaidMembers(sign, BaseText(16, f), row, width, f.zeropad && !f.left, f.left, x);
    LaidMembers(sign, "", digits, width, f.zeropad && !f.left && precision < 0, f.left, x);
  }

  /** "#" on an octal number whose first digit is a zero already, or that has no digit. */
  lemma OctalDiffers(num: int, width: int, precision: int, f: Flags)
    requires -(S63 as int) <= num < S63 && f.special
    requires var mag := Magnitude(num, f); mag == 0 || precision > |Digits(mag, 8, f.large)|
    requires !Conforms(num, 8, width, precision, f)
    ensures NumberText(num, 8, width, precision, f) != StandardText(num, 8, width, precision, f)
  {
    hide Laid, NumberText, SignText, StandardSign, StandardPrefix, Row, Digits, Magnitude;
    var sign, row := SignText(num, f), Row(Magnitude(num, f), 8, precision, f);
    SignIsStandard(num, 8, f);
    NumberIsLaid(num, 8, width, precision, f);
    Rows(Magnitude(num, f), 8, precision, f);
    assert BaseText(8, f) == "0" && "0" + "" == "0";
    assert StandardText(num, 8, width, precision, f)
           == Laid(sign, "", row, width, f.zeropad && !f.left && precision < 0, f.left);
    ExtraZero(sign, row, width, f.zeropad && !f.left, f.zeropad && !f.left && precision < 0, f.left);
  }

  /** A zero that should have no digit at all. */
  lemma NoDigitDiffers(num: int, base: nat, width: int, f: Flags)
    requires -(S63 as int) <= num < S63 && (base == 8 || base == 10 || base == 16)
    requires Magnitude(num, f) == 0 && !(f.special && base != 10)
    ensures NumberText(num, base, width, 0, f) != StandardText(num, base, width, 0, f)
  {
    hide Laid, NumberText, SignText, StandardSign, StandardPrefix, Row, Magnitude;
    SignIsStandard(num, base, f);
    NumberIsLaid(num, base, width, 0, f);
    Rows(0, base, 0, f);
    assert BaseText(base, f) == "";
    assert StandardText(num, base, width, 0, f) == Laid(SignText(num, f), "", "", width, false, f.left);
    assert NumberText(num, base, width, 0, f) == Laid(SignText(num, f), "", "0", width, f.zeropad && !f.left, f.left);
    MissingZero(SignText(num, f), width, f.zeropad && !f.left, f.left);
  }

  /** Zeros where a precision asks for spaces, or everything as the standard has it. */
  lemma RestIff(num: int, base: nat, width: int, precision: int, f: Flags)
    requires -(S63 as int) <= num < S63 && (base == 8 || base == 10 || base == 16)
    requires var mag := Magnitude(num, f);
             && !(f.special && base == 16 && mag == 0) && !(mag == 0 && precision == 0)
             && !(f.special && base == 8 && (mag == 0 || precision > |Digits(mag, base, f.large)|))
    ensures NumberText(num, base, width, precision, f) == StandardText(num, base, width, precision, f)
            <==> Conforms(num, base, width, precision, f)
  {
    hide Laid, NumberText, SignText, StandardSign, StandardPrefix, Row, Digits, Magnitude;
    var sign, row, special := SignText(num, f), Row(Magnitude(num, f), base, precision, f), BaseText(base, f);
    var zero := f.zeropad && !f.left;
    SignIsStandard(num, base, f);
    NumberIsLaid(num, base, width, precision, f);
    Rows(Magnitude(num, f), base, precision, f);
    LaidOctal(sign, row, width, zero && precision < 0, f.left);
    FillIff(sign, special, row, width, zero, zero && precision < 0, f.left);
  }

  lemma OctalZero(num: int, width: int, precision: int, f: Flags)
    requires -(S63 as int) <= num < S63 && f.special && f.zeropad && !f.left
    requires Magnitude(num, f) == 0 && precision < 0 && width >= |SignText(num, f)| + 2
    ensures NumberText(num, 8, width, precision, f) == StandardText(num, 8, width, precision, f)
  {
    hide Laid, NumberText, SignText, StandardSign, StandardPrefix, Row, Magnitude;
    SignIsStandard(num, 8, f);
    NumberIsLaid(num, 8, width, precision, f);
    Rows(0, 8, precision, f);
    LaidZero(SignText(num, f), width);
  }

  /** The integer conversions print the standard's text exactly under this condition. */
  lemma NumberConformsIff(num: int, base: nat, width: int, precision: int, f: Flags)
    requires -(S63 as int) <= num < S63 && (base == 8 || base == 10 || base == 16)
    ensures NumberText(num, base, width, precision, f) == StandardText(num, base, width, precision, f)
            <==> Conforms(num, base, width, precision, f)
  {
    hide NumberText, StandardText, Digits;
    var mag := Magnitude(num, f);
    if f.special && base == 16 && mag == 0 {
      HexZeroDiffers(num, width, precision, f);
    } else if f.special && base == 8 && (mag == 0 || precision > |Digits(mag, base, f.large)|) {
      if Conforms(num, base, width, precision, f) {
        OctalZero(num, width, precision, f);
      } else {
        OctalDiffers(num, width, precision, f);
      }
    } else if mag == 0 && precision == 0 {
      NoDigitDiffers(num, base, width, f);
    } else {
      RestIff(num, base, width, precision, f);
    }
  }

  /** What a directive with an integer conversion prints is the standard's text exactly under it. */
  lemma ConversionConformsIff(d: Directive, conv: char)
    requires IsInteger(conv)
    ensures var f := IntegerFlags(conv, d.flags);
            var num, base := Integer(d.qualifier, f.sign, d.args), BaseOf(conv);
            Converted(d, conv) == StandardText(num, base, d.width, d.precision, f) <==> Conforms(num, base, d.width, d.precision, f)
  {
    var f := IntegerFlags(conv, d.flags);
    NumberConformsIff(Integer(d.qualifier, f.sign, d.args), BaseOf(conv), d.width, d.precision, f);
    hide NumberText, StandardText, Conforms, Integer;
  }

  // ---------------------------------------------------------------------------------------------
  // A negative precision
  // ---------------------------------------------------------------------------------------------

  /** The standard's reading of a precision: a negative argument counts as none. */
  function StandardPrecision(d: Directive): Directive {
    if At(d.rest, 0) != '.' then d
    else
      var s := d.rest[1..];
      if IsDigit(At(s, 0)) then d.(precision := Value(s[..Run(s)], 10), rest := s[Run(s)..])
      else if At(s, 0) == '*' then
        var p := Signed(NextWord(d.args), U32);
        d.(precision := if p < 0 then -1 else p, rest := s[1..], args := Rest(d.args))
      else d.(precision := 0, rest := s)
  }

  lemma PrecisionConformsIff(d: Directive)
    ensures ReadPrecision(d) == StandardPrecision(d)
            <==> !(At(d.rest, 0) == '.' && At(d.rest, 1) == '*' && Signed(NextWord(d.args), U32) < 0)
  {
    hide Value, Run, Signed, NextWord;
    assert At(d.rest, 0) == '.' ==> At(d.rest[1..], 0) == At(d.rest, 1);
  }

  /** For a number it makes no difference. */
  lemma NegativePrecisionNumber(num: int, base: nat, width: int, f: Flags)
    requires -(S63 as int) <= num < S63 && 2 <= base <= 36
    ensures NumberText(num, base, width, 0, f) == NumberText(num, base, width, -1, f)
  {
    hide Digits;
  }

  /** A text, which zero cuts to nothing, prints the same only if it is blank and fits its field. */
  lemma NegativePrecisionText(d: Directive)
    ensures var s := NextText(d.args);
            Converted(d.(precision := 0), 's') == Converted(d.(precision := -1), 's')
            <==> (s == "" || |s| <= d.width) && forall i :: 0 <= i < |s| ==> s[i] == ' '
  {
    var s, width, left := NextText(d.args), d.width, d.flags.left;
    assert Converted(d.(precision := 0), 's') == Justified("", width, left) by {
      assert s != "" ==> s[..0] == "";
    }
    assert Converted(d.(precision := -1), 's') == Justified(s, width, left);
    BlankIff(s, width, left);
    hide Converted, Justified;
  }

  lemma BlankIff(s: string, width: int, left: bool)
    ensures Justified("", width, left) == Justified(s, width, left)
            <==> (s == "" || |s| <= width) && forall i :: 0 <= i < |s| ==> s[i] == ' '
  {
    var a, b := Justified("", width, left), Justified(s, width, left);
    JustifiedLength("", width, left);
    JustifiedLength(s, width, left);
    RepeatMembers(' ', width);
    RepeatMembers(' ', width - |s|);
    assert "" + Repeat(' ', width) == Repeat(' ', width) == Repeat(' ', width) + "";
    hide Repeat;
    forall i | 0 <= i < |s| ensures s[i] in b {
      assert b[if left then i else |b| - |s| + i] == s[i];
    }
    if |a| == |b| && forall i :: 0 <= i < |s| ==> s[i] == ' ' {
      forall i | 0 <= i < |a| ensures a[i] == b[i] {
        assert a[i] in a && b[i] in b;
      }
    }
  }

  // ---------------------------------------------------------------------------------------------
  // A directive is read as it was written
  // ---------------------------------------------------------------------------------------------

  function FlagText(f: Flags): string {
    (if f.left then "-" else "") + ((if f.plus then "+" else "") + ((if f.space then " " else "")
    + ((if f.special then "#" else "") + (if f.zeropad then "0" else ""))))
  }

  /** A directive as a programmer writes it, without the percent sign and the conversion. */
  function Rendered(f: Flags, width: int, precision: int, qualifier: char): string
    requires width >= -1 && precision >= -1
  {
    FlagText(f) + (WidthText(width) + (PrecisionText(precision) + if qualifier == '\0' then "" else [qualifier]))
  }

  function WidthText(width: int): string
    requires width >= -1
  {
    if width == -1 then "" else Digits(width, 10, false)
  }

  function PrecisionText(precision: int): string
    requires precision >= -1
  {
    if precision == -1 then "" else "." + Digits(precision, 10, false)
  }

  predicate IsQualifier(c: char) {
    c == 'h' || c == 'l' || c == 'L' || c == 'Z'
  }

  predicate IsFlag(c: char) {
    c == '-' || c == '+' || c == ' ' || c == '#' || c == '0'
  }

  lemma OptionalFlag(d: Directive, wanted: bool, c: char, t: string)
    requires IsFlag(c) && d.rest == (if wanted then [c] else "") + t
    ensures FlagOf(c, d.flags).Some?
    ensures ReadFlags(d) == ReadFlags(d.(flags := if wanted then FlagOf(c, d.flags).value else d.flags, rest := t))
  {
    if wanted {
      assert d.rest[0] == c && d.rest[1..] == t;
    } else {
      assert d.rest == t;
    }
  }

  lemma FlagsRead(f: Flags, t: string, d: Directive)
    requires !f.sign && !f.large && d.flags == NO_FLAGS && d.rest == FlagText(f) + t && !IsFlag(At(t, 0))
    ensures ReadFlags(d) == d.(flags := f, rest := t)
  {
    var zero := if f.zeropad then "0" else "";
    var special := (if f.special then "#" else "") + zero;
    var space := (if f.space then " " else "") + special;
    var plus := (if f.plus then "+" else "") + space;
    var f1 := NO_FLAGS.(left := f.left);
    var f2 := f1.(plus := f.plus);
    var f3 := f2.(space := f.space);
    var f4 := f3.(special := f.special);
    hide ReadFlags;
    Assoc(if f.left then "-" else "", plus, t);
    OptionalFlag(d, f.left, '-', plus + t);
    Assoc(if f.plus then "+" else "", space, t);
    OptionalFlag(d.(flags := f1, rest := plus + t), f.plus, '+', space + t);
    Assoc(if f.space then " " else "", special, t);
    OptionalFlag(d.(flags := f2, rest := space + t), f.space, ' ', special + t);
    Assoc(if f.special then "#" else "", zero, t);
    OptionalFlag(d.(flags := f3, rest := special + t), f.special, '#', zero + t);
    OptionalFlag(d.(flags := f4, rest := zero + t), f.zeropad, '0', t);
    FlagsEnd(d.(flags := f, rest := t));
  }

  lemma FlagsEnd(d: Directive)
    requires !IsFlag(At(d.rest, 0))
    ensures ReadFlags(d) == d
  {
  }

  /** A numeral in front of something that is no digit. */
  lemma NumeralRead(n: nat, t: string)
    requires !IsDigit(At(t, 0))
    ensures var s := Digits(n, 10, false) + t;
            IsDigit(At(s, 0)) && s[..Run(s)] == Digits(n, 10, false) && s[Run(s)..] == t && Value(s[..Run(s)], 10) == n
    ensures n > 0 ==> !IsFlag(At(Digits(n, 10, false) + t, 0))
  {
    var digits := Digits(n, 10, false);
    var s := digits + t;
    DigitsValue(n, 10, false);
    FirstDigit(n, 10, false);
    hide Digits;
    assert s[..|digits|] == digits && s[|digits|..] == t && At(s, |digits|) == At(t, 0);
    RunIs(s, |digits|);
  }

  lemma WidthRead(d: Directive, width: int, t: string)
    requires width >= -1 && d.width == -1 && d.rest == WidthText(width) + t && !IsDigit(At(t, 0)) && At(t, 0) != '*'
    ensures ReadWidth(d) == d.(width := width, rest := t)
  {
    hide Digits, Run, Value, IsFlag;
    if width == -1 {
      assert d.rest == t;
    } else {
      NumeralRead(width, t);
    }
  }

  lemma DotRead(d: Directive, precision: int, s: string, t: string)
    requires d.rest == "." + s && IsDigit(At(s, 0)) && Value(s[..Run(s)], 10) == precision && s[Run(s)..] == t
    ensures ReadPrecision(d) == d.(precision := precision, rest := t)
  {
    hide Run, Value;
    assert d.rest[1..] == s;
  }

  lemma PrecisionRead(d: Directive, precision: int, t: string)
    requires precision >= -1 && d.precision == -1 && d.rest == PrecisionText(precision) + t && !IsDigit(At(t, 0)) && At(t, 0) != '.'
    ensures ReadPrecision(d) == d.(precision := precision, rest := t)
  {
    hide Digits, Run, Value, IsFlag, IsDigit;
    if precision == -1 {
      assert d.rest == t;
    } else {
      NumeralRead(precision, t);
      Assoc(".", Digits(precision, 10, false), t);
      DotRead(d, precision, Digits(precision, 10, false) + t, t);
    }
  }

  lemma QualifierRead(d: Directive, qualifier: char, t: string)
    requires (qualifier == '\0' || IsQualifier(qualifier)) && d.qualifier == '\0' && !IsQualifier(At(t, 0))
    requires d.rest == (if qualifier == '\0' then "" else [qualifier]) + t
    ensures ReadQualifier(d) == d.(qualifier := qualifier, rest := t)
  {
    if qualifier == '\0' {
      assert d.rest == t;
    } else {
      assert d.rest[0] == qualifier && d.rest[1..] == t && At(d.rest, 1) == At(t, 0);
    }
  }

  /** Whatever flags, width, precision and qualifier are written before a conversion are what is read. */
  lemma RenderedParsed(f: Flags, width: int, precision: int, qualifier: char, rest: string, args: seq<Arg>)
    requires !f.sign && !f.large && (width == -1 || width > 0) && precision >= -1
    requires qualifier == '\0' || IsQualifier(qualifier)
    requires var c := At(rest, 0); !IsDigit(c) && !IsFlag(c) && c != '.' && c != '*' && !IsQualifier(c)
    ensures Parsed(Rendered(f, width, precision, qualifier) + rest, args) == Directive(f, width, precision, qualifier, rest, args)
  {
    var q := if qualifier == '\0' then "" else [qualifier];
    var p, w := PrecisionText(precision), WidthText(width);
    var d := Directive(NO_FLAGS, -1, -1, '\0', Rendered(f, width, precision, qualifier) + rest, args);
    HeadOf(qualifier, rest);
    PrecisionHead(precision, q + rest);
    WidthHead(width, p + (q + rest));
    Assoc(FlagText(f), w + (p + q), rest);
    Assoc(w, p + q, rest);
    Assoc(p, q, rest);
    hide FlagText, PrecisionText, WidthText, ReadFlags, ReadWidth, ReadPrecision, ReadQualifier;
    FlagsRead(f, w + (p + (q + rest)), d);
    WidthRead(d.(flags := f, rest := w + (p + (q + rest))), width, p + (q + rest));
    PrecisionRead(d.(flags := f, width := width, rest := p + (q + rest)), precision, q + rest);
    QualifierRead(d.(flags := f, width := width, precision := precision, rest := q + rest), qualifier, rest);
  }

  lemma HeadOf(qualifier: char, rest: string)
    requires qualifier == '\0' || IsQualifier(qualifier)
    requires var c := At(rest, 0); !IsDigit(c) && !IsFlag(c) && c != '.' && c != '*'
    ensures var c := At((if qualifier == '\0' then "" else [qualifier]) + rest, 0); !IsDigit(c) && !IsFlag(c) && c != '.' && c != '*'
  {
    assert "" + rest == rest;
  }

  lemma PrecisionHead(precision: int, t: string)
    requires precision >= -1 && !IsDigit(At(t, 0)) && !IsFlag(At(t, 0)) && At(t, 0) != '*'
    ensures var c := At(PrecisionText(precision) + t, 0); !IsDigit(c) && !IsFlag(c) && c != '*'
  {
    hide Digits;
    assert "" + t == t;
  }

  lemma WidthHead(width: int, t: string)
    requires (width == -1 || width > 0) && !IsDigit(At(t, 0)) && !IsFlag(At(t, 0))
    ensures !IsFlag(At(WidthText(width) + t, 0))
  {
    if width > 0 { NumeralRead(width, t); }
    hide Digits;
    assert "" + t == t;
  }

  // ---------------------------------------------------------------------------------------------
  // Formats whose text is not the standard's
  // ---------------------------------------------------------------------------------------------

  /** One directive as a whole format. */
  lemma Printed(fmt: string, f: Flags, width: int, precision: int, conv: char, args: seq<Arg>)
    requires !f.sign && !f.large && (width == -1 || width > 0) && precision >= -1
    requires !IsDigit(conv) && !IsFlag(conv) && conv != '.' && conv != '*' && !IsQualifier(conv)
    requires fmt == "%" + (Rendered(f, width, precision, '\0') + [conv])
    ensures Formatted(fmt, args, Output("", [])).text == Converted(Directive(f, width, precision, '\0', [conv], args), conv)
  {
    RenderedParsed(f, width, precision, '\0', [conv], args);
    hide Rendered, Converted, Formatted;
    OneDirective(Rendered(f, width, precision, '\0') + [conv], args);
  }

  /** "%#x" of 0 gets a prefix. */
  lemma HexZeroExample()
    ensures Formatted("%#x", [Word(0)], Output("", [])).text == "0x0"
    ensures StandardText(0, 16, -1, -1, NO_FLAGS.(special := true)) == "0"
  {
    hide Formatted;
    var f := NO_FLAGS.(special := true);
    assert Rendered(f, -1, -1, '\0') + ['x'] == "#x";
    Printed("%#x", f, -1, -1, 'x', [Word(0)]);
    assert Digits(0, 16, false) == "0";
  }

  /** "%#o" of 0 prints two zeros. */
  lemma OctalZeroExample()
    ensures Formatted("%#o", [Word(0)], Output("", [])).text == "00"
    ensures StandardText(0, 8, -1, -1, NO_FLAGS.(special := true)) == "0"
  {
    hide Formatted;
    var f := NO_FLAGS.(special := true);
    assert Rendered(f, -1, -1, '\0') + ['o'] == "#o";
    Printed("%#o", f, -1, -1, 'o', [Word(0)]);
    assert Digits(0, 8, false) == "0";
  }

  /** "%.0u" of 0 prints a digit. */
  lemma NoDigitExample()
    ensures Formatted("%.0u", [Word(0)], Output("", [])).text == "0"
    ensures StandardText(0, 10, -1, 0, NO_FLAGS) == ""
  {
    hide Formatted;
    assert Digits(0, 10, false) == "0";
    assert Rendered(NO_FLAGS, -1, 0, '\0') + ['u'] == ".0u";
    Printed("%.0u", NO_FLAGS, -1, 0, 'u', [Word(0)]);
  }

  lemma ZeroFlagTexts()
    ensures var f := NO_FLAGS.(zeropad := true);
            NumberText(7, 10, 3, 1, f) == "007" && StandardText(7, 10, 3, 1, f) == "  7"
  {
    assert Digits(7, 10, false) == "7";
    assert Repeat('0', 2) == "00" && Repeat(' ', 2) == "  " && Repeat('0', 0) == "";
    hide Digits, Repeat;
    var f := NO_FLAGS.(zeropad := true);
    assert BaseText(10, f) == "" && SignText(7, f) == "" && Magnitude(7, f) == 7;
    hide BaseText, SignText, Magnitude;
    assert Row(7, 10, 1, f) == "7";
  }

  /** "%03.1u" of 7 is filled with zeros although a precision is given. */
  lemma ZeroFlagExample()
    ensures Formatted("%03.1u", [Word(7)], Output("", [])).text == "007"
    ensures StandardText(7, 10, 3, 1, NO_FLAGS.(zeropad := true)) == "  7"
  {
    ZeroFlagTexts();
    ConvertedUnsigned(NO_FLAGS.(zeropad := true), 3, 1, 7);
    hide Formatted, StandardText, NumberText, Rendered, Converted;
    ZeroFlagRendered();
    Printed("%03.1u", NO_FLAGS.(zeropad := true), 3, 1, 'u', [Word(7)]);
  }

  lemma ConvertedUnsigned(f: Flags, width: int, precision: int, n: nat)
    requires n < U32 && !f.sign && !f.large
    ensures Converted(Directive(f, width, precision, '\0', "u", [Word(n)]), 'u') == NumberText(n, 10, width, precision, f)
  {
    hide NumberText;
    assert IntegerFlags('u', f) == f;
  }

  lemma ZeroFlagRendered()
    ensures "%" + (Rendered(NO_FLAGS.(zeropad := true), 3, 1, '\0') + ['u']) == "%03.1u"
  {
    assert Digits(3, 10, false) == "3" && Digits(1, 10, false) == "1";
    hide Digits;
  }

  /** "%.*s" of -1 and a text prints nothing of it. */
  lemma NegativePrecisionExample()
    ensures Formatted("%.*s", [Word(U32 - 1), Text(Some("a"))], Output("", [])).text == ""
    ensures StandardPrecision(Directive(NO_FLAGS, -1, -1, '\0', ".*s", [Word(U32 - 1)])).precision == -1
  {
    hide Formatted;
    var args := [Word(U32 - 1), Text(Some("a"))];
    assert At(".*s", 0) == '.' && ".*s"[1..] == "*s" && "*s"[1..] == "s";
    assert Rest(args) == [Text(Some("a"))];
    assert Parsed(".*s", args) == Directive(NO_FLAGS, -1, 0, '\0', "s", [Text(Some("a"))]);
    OneDirective(".*s", args);
    assert "%" + ".*s" == "%.*s";
    assert "a"[..0] == "";
  }
}
