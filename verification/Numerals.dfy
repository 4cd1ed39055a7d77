/**
 Numbers as text: the digits that number() of lib/vsprintf.c prints and the parsers of that file.
 A C string is a sequence of characters that ends before its NUL; reading behind it gives the NUL.
 */
module Numerals {
  import opened Arith
  import opened Div64
  import opened Words

  // ---------------------------------------------------------------------------------------------
  // Digits
  // ---------------------------------------------------------------------------------------------

  function DigitChar(d: nat, large: bool): char
    requires d < 36
  {
    if d < 10 then '0' + d as char else (if large then 'A' else 'a') + (d - 10) as char
  }

  /** The table of number(), in either case. */
  function DigitTable(large: bool): string {
    if large then "0123456789ABCDEFGHIJKLMNOPQRSTUVWXYZ" else "0123456789abcdefghijklmnopqrstuvwxyz"
  }

  lemma DigitInTable(d: nat, large: bool)
    requires d < 36
    ensures d < |DigitTable(large)| && DigitChar(d, large) == DigitTable(large)[d]
  {
  }

  predicate IsDigit(c: char) {
    '0' <= c <= '9'
  }

  predicate IsXDigit(c: char) {
    '0' <= c <= '9' || 'a' <= c <= 'f' || 'A' <= c <= 'F'
  }

  function ToUpper(c: char): char {
    if 'a' <= c <= 'z' then c - 32 as char else c
  }

  /** What a hexadecimal digit stands for. */
  function DigitValue(c: char): nat
    requires IsXDigit(c)
  {
    if IsDigit(c) then (c - '0') as nat else (ToUpper(c) - 'A') as nat + 10
  }

  predicate DigitOf(c: char, base: nat) {
    IsXDigit(c) && DigitValue(c) < base
  }

  lemma DigitRoundTrip(d: nat, large: bool, base: nat)
    requires d < base <= 16
    ensures DigitOf(DigitChar(d, large), base) && DigitValue(DigitChar(d, large)) == d
  {
  }

  predicate AllDigits(s: string, base: nat) {
    forall i :: 0 <= i < |s| ==> DigitOf(s[i], base)
  }

  function Horner(v: nat, base: nat, d: nat): nat {
    v * base + d
  }

  function Remainder(n: nat, base: nat): (r: nat)
    requires base > 0
    ensures r < base
  {
    n % base
  }

  /** The number a row of digits denotes. */
  function Value(s: string, base: nat): nat
    requires AllDigits(s, base)
  {
    if s == [] then 0 else Horner(Value(s[..|s| - 1], base), base, DigitValue(s[|s| - 1]))
  }

  /** The numeral of `n`, without leading zeros. */
  function Digits(n: nat, base: nat, large: bool): (s: string)
    requires 2 <= base <= 36
    ensures |s| >= 1
    decreases n
  {
    if n < base then [DigitChar(n, large)]
    else
      Shrinks(n, base);
      Digits(Quotient(n, base), base, large) + [DigitChar(Remainder(n, base), large)]
  }

  lemma Shrinks(n: nat, base: nat)
    requires 2 <= base
    ensures Quotient(n, base) <= n && (n >= base ==> 0 < Quotient(n, base) < n)
    ensures Horner(Quotient(n, base), base, Remainder(n, base)) == n
    ensures n < base ==> Quotient(n, base) == 0 && Remainder(n, base) == n
  {
    DivShrinks(n, base);
    if n >= base {
      DivAtLeast(n, base, 1);
      MulMono(2, base, n);
      DivBelow(n, base, n);
    } else {
      ModUnique(n, base, 0, n);
    }
  }

  lemma ValueAppend(s: string, c: char, base: nat)
    requires AllDigits(s, base) && DigitOf(c, base)
    ensures AllDigits(s + [c], base) && Value(s + [c], base) == Horner(Value(s, base), base, DigitValue(c))
  {
    hide Horner, DigitOf, DigitValue;
    assert (s + [c])[..|s|] == s;
  }

  /** The numeral denotes the number. */
  lemma {:induction false} DigitsValue(n: nat, base: nat, large: bool)
    requires 2 <= base <= 16
    ensures AllDigits(Digits(n, base, large), base) && Value(Digits(n, base, large), base) == n
    decreases n
  {
    hide DigitOf, DigitChar, DigitValue, Horner, Quotient, Remainder;
    Shrinks(n, base);
    DigitRoundTrip(Remainder(n, base), large, base);
    if n < base {
      ValueAppend("", DigitChar(n, large), base);
      HornerZero(base, n);
      assert Digits(n, base, large) == "" + [DigitChar(n, large)];
    } else {
      DigitsValue(Quotient(n, base), base, large);
      ValueAppend(Digits(Quotient(n, base), base, large), DigitChar(Remainder(n, base), large), base);
    }
  }

  lemma HornerZero(base: nat, d: nat)
    ensures Horner(0, base, d) == d
  {
  }

  lemma {:induction false} DigitsLength(n: nat, base: nat, large: bool, k: nat)
    requires 2 <= base <= 36 && n < Pow2(k) && k > 0
    ensures |Digits(n, base, large)| <= k
    decreases k
  {
    hide DigitChar, Remainder;
    if n >= base {
      assert Pow2(1) == 2 * Pow2(0);
      assert k > 1;
      Shrinks(n, base);
      MulMono(2, base, Pow2(k - 1));
      DivBelow(n, base, Pow2(k - 1));
      DigitsLength(Quotient(n, base), base, large, k - 1);
    }
  }

  // ---------------------------------------------------------------------------------------------
  // Parsing
  // ---------------------------------------------------------------------------------------------

  /** The character at `i`, or the terminating NUL. */
  function At(s: string, i: nat): char {
    if i < |s| then s[i] else '\0'
  }

  /** The base and the start of the digits, as base 0 reads them off the prefix. */
  function Prefix(s: string, base: nat): (r: (nat, nat))
    ensures r.1 <= |s|
  {
    if base != 0 then (base, 0)
    else if At(s, 0) != '0' then (10, 0)
    else if At(s, 1) == 'x' && IsXDigit(At(s, 2)) then (16, 2)
    else (8, 1)
  }

  /** `value` is denoted by the longest row of digits behind the prefix, and `end` is where it ends. */
  ghost predicate Parses(s: string, base: nat, value: nat, end: nat) {
    var (b, start) := Prefix(s, base);
    && start <= end <= |s| && AllDigits(s[start..end], b) && !DigitOf(At(s, end), b)
    && value == Value(s[start..end], b) % U64
  }

  /** A string parses in one way only. */
  lemma ParsesUnique(s: string, base: nat, v: nat, e: nat, w: nat, f: nat)
    requires Parses(s, base, v, e) && Parses(s, base, w, f)
    ensures v == w && e == f
  {
    var (b, start) := Prefix(s, base);
    InRun(s, b, start, e, f);
    InRun(s, b, start, f, e);
  }

  lemma InRun(s: string, b: nat, start: nat, e: nat, f: nat)
    ensures start <= e < f <= |s| && AllDigits(s[start..f], b) ==> DigitOf(At(s, e), b)
  {
    if start <= e < f <= |s| && AllDigits(s[start..f], b) {
      assert s[start..f][e - start] == s[e];
    }
  }

  /** simple_strtoull: the value modulo 2^64 and the index of the first character not used. */
  method SimpleStrtoull(s: string, base0: nat) returns (result: nat, cp: nat)
    requires base0 < U32
    ensures Parses(s, base0, result, cp)
  {
    var base := base0;
    result, cp := 0, 0;
    if base == 0 {
      base := 10;
      if At(s, 0) == '0' {
        base := 8;
        cp := cp + 1;
        if At(s, cp) == 'x' && IsXDigit(At(s, cp + 1)) {
          cp := cp + 1;
          base := 16;
        }
      }
    }
    hide Value, DigitValue, Horner;
    ghost var start := cp;
    NothingScanned(s, start, base);
    while IsXDigit(At(s, cp)) && DigitValue(At(s, cp)) < base
      invariant start <= cp <= |s| && AllDigits(s[start..cp], base)
      invariant result == Value(s[start..cp], base) % U64
      decreases |s| - cp
    {
      ScanStep(s, start, cp, base);
      result := (result * base + DigitValue(At(s, cp))) % U64;
      cp := cp + 1;
    }
  }

  /** The same for a signed number: a minus sign negates what follows it, in 64 bits. */
  ghost predicate ParsesSigned(s: string, base: nat, value: int, end: nat) {
    -(S63 as int) <= value < S63 &&
    if At(s, 0) == '-' then end > 0 && ParsesTo(s[1..], base, -value, end - 1) else ParsesTo(s, base, value, end)
  }

  /** What is parsed is `value` in 64 bits. */
  ghost predicate ParsesTo(s: string, base: nat, value: int, end: nat) {
    Parses(s, base, value % U64, end)
  }

  /** The signed number with these 64 bits. */
  function AsSigned(n: nat): (v: int)
    requires n < U64
    ensures -(S63 as int) <= v < S63 && v % U64 == n
  {
    if n < S63 then n else n - U64
  }

  /** simple_strtoll: the value and the index of the first character not used. */
  method SimpleStrtoll(s: string, base: nat) returns (result: int, end: nat)
    requires base < U32
    ensures ParsesSigned(s, base, result, end)
  {
    hide Parses;
    if At(s, 0) == '-' {
      var u, e := SimpleStrtoull(s[1..], base);
      ParsedBelow(s[1..], base, u, e);
      result, end := AsSigned((U64 - u) % U64), e + 1;
      Negated(result, u);
    } else {
      var u, e := SimpleStrtoull(s, base);
      ParsedBelow(s, base, u, e);
      result, end := AsSigned(u), e;
    }
  }

  lemma ParsedBelow(s: string, base: nat, value: nat, end: nat)
    requires Parses(s, base, value, end)
    ensures value < U64
  {
  }

  lemma Negated(v: int, u: nat)
    requires u < U64 && v == AsSigned((U64 - u) % U64)
    ensures -v % U64 == u
  {
    if u > 0 { ModUnique(U64 - u, U64, 0, U64 - u); } else { ModUnique(U64, U64, 1, 0); }
    ModUnique(-v, U64, if v > 0 then -1 else 0, u);
  }

  lemma NothingScanned(s: string, start: nat, base: nat)
    requires start <= |s|
    ensures AllDigits(s[start..start], base) && Value(s[start..start], base) % U64 == 0
  {
  }

  lemma ScanStep(s: string, start: nat, cp: nat, base: nat)
    requires start <= cp <= |s| && AllDigits(s[start..cp], base) && DigitOf(At(s, cp), base)
    ensures cp < |s| && AllDigits(s[start..cp + 1], base)
    ensures Value(s[start..cp + 1], base) % U64 == (Value(s[start..cp], base) % U64 * base + DigitValue(s[cp])) % U64
  {
    assert cp < |s|;
    hide DigitOf, DigitValue;
    ValueAppend(s[start..cp], s[cp], base);
    assert s[start..cp + 1] == s[start..cp] + [s[cp]];
    HornerWraps(Value(s[start..cp], base), base, DigitValue(s[cp]));
  }

  /** Wrapping at every step is wrapping once at the end. */
  lemma HornerWraps(v: nat, base: nat, d: nat)
    ensures (v % U64 * base + d) % U64 == Horner(v, base, d) % U64
  {
    var q, r := v / U64, v % U64;
    var x := r * base + d;
    assert v * base + d == U64 * (q * base) + x;
    ModUnique(v * base + d, U64, q * base + x / U64, x % U64);
  }

  // ---------------------------------------------------------------------------------------------
  // Round trips
  // ---------------------------------------------------------------------------------------------

  /** A prefix, the numeral of `v` and then something that is no digit. */
  lemma ParsesNumeral(pre: string, v: nat, b: nat, large: bool, rest: string, base: nat)
    requires v < U64 && 2 <= b <= 16 && !DigitOf(At(rest, 0), b)
    requires Prefix(pre + Digits(v, b, large) + rest, base) == (b, |pre|)
    ensures Parses(pre + Digits(v, b, large) + rest, base, v, |pre| + |Digits(v, b, large)|)
  {
    hide DigitOf, Digits, Prefix, Value;
    var digits := Digits(v, b, large);
    var s := pre + digits + rest;
    DigitsValue(v, b, large);
    assert s[|pre|..|pre| + |digits|] == digits;
    assert At(s, |pre| + |digits|) == At(rest, 0);
  }

  /** For every base from 2 to 16 and in either case, parsing undoes printing and stops behind the digits. */
  lemma UndoesDigits(v: nat, base: nat, large: bool, rest: string)
    requires v < U64 && 2 <= base <= 16 && !DigitOf(At(rest, 0), base)
    ensures Parses(Digits(v, base, large) + rest, base, v, |Digits(v, base, large)|)
  {
    ParsesNumeral("", v, base, large, rest, base);
    assert "" + Digits(v, base, large) + rest == Digits(v, base, large) + rest;
  }

  lemma {:induction false} FirstDigit(n: nat, base: nat, large: bool)
    requires 2 <= base <= 16
    ensures DigitOf(Digits(n, base, large)[0], base) && (n > 0 ==> Digits(n, base, large)[0] != '0')
    decreases n
  {
    if n < base {
      DigitRoundTrip(n, large, base);
    } else {
      hide Quotient;
      Shrinks(n, base);
      FirstDigit(Quotient(n, base), base, large);
    }
  }

  /** Base 0 undoes "%#llo". */
  lemma UndoesOctal(v: nat, rest: string)
    requires v < U64 && !DigitOf(At(rest, 0), 8)
    ensures Parses("0" + Digits(v, 8, false) + rest, 0, v, 1 + |Digits(v, 8, false)|)
  {
    FirstDigit(v, 8, false);
    hide Digits;
    assert ("0" + Digits(v, 8, false) + rest)[1] == Digits(v, 8, false)[0];
    ParsesNumeral("0", v, 8, false, rest, 0);
  }

  /** Base 0 undoes "%#llx". */
  lemma UndoesHex(v: nat, rest: string)
    requires v < U64 && !DigitOf(At(rest, 0), 16)
    ensures Parses("0x" + Digits(v, 16, false) + rest, 0, v, 2 + |Digits(v, 16, false)|)
  {
    FirstDigit(v, 16, false);
    hide Digits;
    assert ("0x" + Digits(v, 16, false) + rest)[2] == Digits(v, 16, false)[0];
    ParsesNumeral("0x", v, 16, false, rest, 0);
  }

  /** Base 0 undoes "%llu"; a zero may not be followed by an x. */
  lemma UndoesDecimal(v: nat, rest: string)
    requires v < U64 && !DigitOf(At(rest, 0), 10) && (v == 0 ==> At(rest, 0) != 'x')
    ensures Parses(Digits(v, 10, false) + rest, 0, v, |Digits(v, 10, false)|)
  {
    if v == 0 {
      UndoesZero(rest);
    } else {
      FirstDigit(v, 10, false);
      hide Digits, Parses, DigitOf;
      assert (Digits(v, 10, false) + rest)[0] == Digits(v, 10, false)[0];
      assert "" + Digits(v, 10, false) + rest == Digits(v, 10, false) + rest;
      ParsesNumeral("", v, 10, false, rest, 0);
    }
  }

  /** A single zero is the octal prefix with no digits behind it. */
  lemma UndoesZero(rest: string)
    requires !DigitOf(At(rest, 0), 10) && At(rest, 0) != 'x'
    ensures Digits(0, 10, false) == "0" && Parses("0" + rest, 0, 0, 1)
  {
    var s := "0" + rest;
    assert At(s, 1) == At(rest, 0) && s[1..1] == [];
  }

  /** Base 0 does not undo "%#llX": the capital X ends an octal zero, whatever follows. */
  lemma MissesLargeHex(v: nat, rest: string)
    ensures Parses("0X" + Digits(v, 16, true) + rest, 0, 0, 1)
  {
    hide Digits;
    var s := "0X" + Digits(v, 16, true) + rest;
    assert s[1] == 'X' && s[1..1] == [];
  }
}
