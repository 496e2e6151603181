/**
 The texts that lib/convert.c takes for numbers, as a grammar over literal
 characters: every text falls into spaces, sign, prefix, digits and a rest in
 exactly one way, and these parts alone decide what the parsers return.
 */
module ConvertGrammar {
  import opened Words
  import opened ConvertSpec

  // ------------------------------------------------------------------ the grammar

  /** The character is the digit `d`. */
  ghost predicate Digit(ch: char, d: nat) {
    || ('0' <= ch <= '9' && ch as int == 48 + d)
    || ('A' <= ch <= 'Z' && ch as int == 55 + d)
    || ('a' <= ch <= 'z' && ch as int == 87 + d)
  }

  ghost predicate DigitBelow(ch: char, base: nat) {
    exists d: nat :: d < base && Digit(ch, d)
  }

  ghost predicate Space(ch: char) {
    ch in " \t\n\r" || ch as int == 11 || ch as int == 12
  }

  /** The base that a prefix stands for; 0 if it is none. */
  ghost function PrefixOf(p: string): nat {
    if p in ["0b", "0B"] then 2 else if p in ["0o", "0O"] then 8 else if p in ["0x", "0X"] then 16
    else if p in ["0a", "0A"] then 36 else 0
  }

  /** Positional notation. */
  ghost function Worth(values: seq<nat>, base: nat): nat {
    if values == [] then 0 else values[0] * Power(base, |values| - 1) + Worth(values[1..], base)
  }

  /** A text in parts; `values` are the digits as numbers. */
  datatype Split = Split(spaces: string, sign: string, prefix: string, digits: string, values: seq<nat>, rest: string)

  /** The text behind the sign. */
  ghost function Unsigned(x: Split): string {
    x.prefix + (x.digits + x.rest)
  }

  /** Without a prefix, a text that starts with a zero is octal. */
  ghost function BaseOf(x: Split, o: Options): nat {
    if x.prefix != "" then PrefixOf(x.prefix) else if ['0'] <= x.digits + x.rest then 8 else o.defaultBase
  }

  ghost predicate Splits(s: string, o: Options, x: Split) {
    var numeral := x.digits + x.rest;
    var text := x.sign + Unsigned(x);
    && s == x.spaces + text
    && (forall i :: 0 <= i < |x.spaces| ==> Space(x.spaces[i]))
    && (if o.skipSpace then text == "" || !Space(text[0]) else x.spaces == "")
    && x.sign in ["", "+", "-"] && (x.sign == "" ==> Unsigned(x) == "" || Unsigned(x)[0] !in "+-")
    && (if x.prefix == "" then |numeral| < 2 || PrefixOf(numeral[..2]) == 0 else PrefixOf(x.prefix) > 0)
    && |x.values| == |x.digits| && (forall i :: 0 <= i < |x.digits| ==> x.values[i] < BaseOf(x, o) && Digit(x.digits[i], x.values[i]))
    && (x.rest == "" || !DigitBelow(x.rest[0], BaseOf(x, o)))
  }

  /** What digits worth `v` and a rest say; `lone` is a zero and nothing else. */
  ghost function Ruled(v: nat, none: bool, rest: string, minus: bool, lone: bool, o: Options, signed: bool): Parsed {
    if v >= U64_LIMIT then Failed(Overflow)
    else if rest != "" && !o.dontParseToEnd then Failed(InvalidChar)
    else if none then Failed(NoDigits)
    else if signed && v > 0x7fff_ffff_ffff_ffff then Failed(Overflow)
    else if minus && !lone then Failed(Underflow)
    else Number(v, rest)
  }

  /** What the parts say. */
  ghost function Outcome(x: Split, o: Options, signed: bool): Parsed {
    if x.sign == "-" && !signed then Failed(NegUnsigned)
    else if x.sign == "+" && o.noPlus then Failed(UnallowedPosSign)
    else if Unsigned(x) == "" then Failed(NoDigits)
    else if |x.prefix| == 2 && x.prefix[1] in o.noPrefix then Failed(UnallowedPrefix)
    else if |x.prefix| == 2 && PrefixOf(x.prefix) in o.noBase then Failed(UnallowedBase)
    else Ruled(Worth(x.values, BaseOf(x, o)), x.digits == "", x.rest, x.sign == "-", Unsigned(x) == "0", o, signed)
  }

  // ----------------------------------------------------------------------- digits

  lemma {:induction false} DigitIs(ch: char, d: nat)
    requires Digit(ch, d)
    ensures DigitOf(ch) == d < 36
  {
  }

  lemma {:induction false} DigitBelowIs(ch: char, base: nat)
    requires base <= 36
    ensures DigitBelow(ch, base) <==> DigitOf(ch) < base
  {
    if DigitOf(ch) < base {
      assert Digit(ch, DigitOf(ch));
    }
  }

  lemma {:induction false} SpaceIs(ch: char)
    ensures Space(ch) <==> IsSpace(ch)
  {
  }

  /** The value of a text of digits is what they are worth in positional notation. */
  lemma {:induction false} ValueIsWorth(digits: string, values: seq<nat>, base: nat)
    requires |digits| == |values| && forall i :: 0 <= i < |digits| ==> Digit(digits[i], values[i])
    ensures Value(digits, base) == Worth(values, base)
  {
    if digits != "" {
      var k := |digits| - 1;
      ValueIsWorth(digits[..k], values[..k], base);
      DigitIs(digits[k], values[k]);
      WorthSnoc(values[..k], base, values[k]);
      assert values == values[..k] + [values[k]];
    }
  }

  lemma {:induction false} WorthSnoc(values: seq<nat>, base: nat, d: nat)
    ensures Worth(values + [d], base) == Worth(values, base) * base + d
  {
    if values == [] {
      assert Power(base, 0) == 1;
      assert ([] + [d])[1..] == [];
    } else {
      WorthSnoc(values[1..], base, d);
      assert (values + [d])[1..] == values[1..] + [d];
      TimesPower(values[0], base, |values| - 1, Worth(values[1..], base));
    }
  }

  lemma {:induction false} TimesPower(a: nat, base: nat, k: nat, w: nat)
    ensures (a * Power(base, k) + w) * base == a * Power(base, k + 1) + w * base
  {
    assert Power(base, k + 1) == base * Power(base, k);
  }

  // ------------------------------------------------------------------- the numeral

  /** Digits of the base, and a rest that does not go on with one. */
  ghost predicate Numeral(digits: string, values: seq<nat>, rest: string, base: nat) {
    && base <= 36 && |values| == |digits| && (forall i :: 0 <= i < |digits| ==> values[i] < base && Digit(digits[i], values[i]))
    && (rest == "" || !DigitBelow(rest[0], base))
  }

  /** The loop and the checks behind it. */
  lemma {:induction false} BodyIs(digits: string, values: seq<nat>, rest: string, base: nat, found: bool, o: Options, negative: bool, signed: bool)
    requires Numeral(digits, values, rest, base)
    ensures Finish(Body(digits + rest, base, found, o), negative, signed) ==
            Ruled(Worth(values, base), digits == "" && !found, rest, negative, false, o, signed)
  {
    var text, n := digits + rest, |digits|;
    assert text[..n] == digits && text[n..] == rest;
    forall i | 0 <= i < n ensures DigitOf(text[..n][i]) < base {
      DigitIs(digits[i], values[i]);
    }
    if rest != "" {
      DigitBelowIs(rest[0], base);
      assert text[n] == rest[0];
    }
    RunUnique(text, base, n);
    ValueIsWorth(digits, values, base);
  }

  /** The end of the parse, once the sign is known. */
  ghost function Ended(h: Head, o: Options, signed: bool): Parsed {
    match h
    case Refused(code) => Failed(code)
    case Zero => Number(0, "")
    case Digits(negative, base, zeroSeen, text) => Finish(Body(text, base, zeroSeen, o), negative, signed)
  }

  lemma {:induction false} PrefixIs(p: string)
    requires |p| == 2
    ensures PrefixOf(p) == if p[0] == '0' then PrefixBase(p[1]) else 0
  {
    assert p == [p[0], p[1]];
  }

  lemma {:induction false} PrefixTwo(p: string)
    requires PrefixOf(p) > 0
    ensures |p| == 2 && p[0] == '0' && PrefixOf(p) == PrefixBase(p[1]) <= 36
  {
    PrefixIs(p);
  }

  ghost predicate SignFits(x: Split, o: Options, negative: bool, signed: bool) {
    (x.sign == "-" <==> negative) && (x.sign == "+" ==> !o.noPlus) && (negative ==> signed)
  }

  lemma {:induction false} WithPrefix(x: Split, o: Options, negative: bool, signed: bool)
    requires x.prefix != "" && PrefixOf(x.prefix) > 0 && Numeral(x.digits, x.values, x.rest, PrefixOf(x.prefix))
    requires SignFits(x, o, negative, signed)
    ensures Ended(AfterSign(Unsigned(x), o, negative), o, signed) == Outcome(x, o, signed)
  {
    PrefixTwo(x.prefix);
    var t := Unsigned(x);
    assert t[0] == x.prefix[0] && t[1] == x.prefix[1] && t[2..] == x.digits + x.rest;
    BodyIs(x.digits, x.values, x.rest, PrefixOf(x.prefix), false, o, negative, signed);
  }

  lemma {:induction false} WithoutPrefix(x: Split, o: Options, negative: bool, signed: bool)
    requires x.prefix == "" && x.digits + x.rest != "" && (x.digits + x.rest)[0] != '0'
    requires Numeral(x.digits, x.values, x.rest, o.defaultBase)
    requires SignFits(x, o, negative, signed)
    ensures Ended(AfterSign(Unsigned(x), o, negative), o, signed) == Outcome(x, o, signed)
  {
    var t := Unsigned(x);
    assert t == x.digits + x.rest;
    BodyIs(x.digits, x.values, x.rest, o.defaultBase, false, o, negative, signed);
  }

  lemma {:induction false} ZeroFirst(digits: string, values: seq<nat>, rest: string)
    requires Numeral(digits, values, rest, 8) && digits + rest != "" && (digits + rest)[0] == '0'
    ensures digits != "" && digits[0] == '0' && values[0] == 0
  {
    assert Digit('0', 0);
    assert DigitBelow('0', 8);
  }

  lemma {:induction false} LoneZero(x: Split, o: Options, negative: bool, signed: bool)
    requires x.prefix == "" && x.digits == "0" && x.rest == "" && x.values == [0] && SignFits(x, o, negative, signed)
    ensures Ended(AfterSign(Unsigned(x), o, negative), o, signed) == Outcome(x, o, signed)
  {
    assert Unsigned(x) == "0";
    assert Worth([0], 8) == 0 * Power(8, 0) + Worth([], 8);
  }

  lemma {:induction false} DropFirst(a: string, b: string)
    requires a != ""
    ensures (a + b)[1..] == a[1..] + b
  {
  }

  lemma {:induction false} OctalHead(t: string, o: Options, negative: bool)
    requires |t| > 1 && t[0] == '0' && PrefixOf(t[..2]) == 0
    ensures AfterSign(t, o, negative) == Digits(negative, 8, true, t[1..])
  {
    PrefixIs(t[..2]);
  }

  lemma {:induction false} LeadingZero(values: seq<nat>, base: nat)
    requires values != [] && values[0] == 0
    ensures Worth(values, base) == Worth(values[1..], base)
  {
  }

  /** Without the first zero it is still an octal numeral. */
  lemma {:induction false} ZeroDropped(digits: string, values: seq<nat>, rest: string)
    requires digits != "" && Numeral(digits, values, rest, 8)
    ensures Numeral(digits[1..], values[1..], rest, 8)
  {
  }

  lemma {:induction false} MoreZeros(x: Split, o: Options, negative: bool, signed: bool)
    requires x.prefix == "" && x.digits != "" && x.digits[0] == '0' && Numeral(x.digits, x.values, x.rest, 8) && x.values[0] == 0
    requires |x.digits + x.rest| > 1 && PrefixOf((x.digits + x.rest)[..2]) == 0
    requires SignFits(x, o, negative, signed)
    ensures Ended(AfterSign(Unsigned(x), o, negative), o, signed) == Outcome(x, o, signed)
  {
    assert Unsigned(x) == x.digits + x.rest;
    OctalHead(x.digits + x.rest, o, negative);
    DropFirst(x.digits, x.rest);
    LeadingZero(x.values, 8);
    ZeroDropped(x.digits, x.values, x.rest);
    BodyIs(x.digits[1..], x.values[1..], x.rest, 8, true, o, negative, signed);
  }

  lemma {:induction false} WithZero(x: Split, o: Options, negative: bool, signed: bool)
    requires x.prefix == "" && x.digits + x.rest != "" && (x.digits + x.rest)[0] == '0'
    requires |x.digits + x.rest| < 2 || PrefixOf((x.digits + x.rest)[..2]) == 0
    requires Numeral(x.digits, x.values, x.rest, 8)
    requires SignFits(x, o, negative, signed)
    ensures Ended(AfterSign(Unsigned(x), o, negative), o, signed) == Outcome(x, o, signed)
  {
    ZeroFirst(x.digits, x.values, x.rest);
    if |x.digits + x.rest| > 1 {
      MoreZeros(x, o, negative, signed);
    } else {
      LoneZero(x, o, negative, signed);
    }
  }

  // ---------------------------------------------------------------- the whole text

  /** What Splits says of the parts behind the sign. */
  lemma {:induction false} UnsignedIs(s: string, o: Options, x: Split, negative: bool, signed: bool)
    requires Splits(s, o, x) && o.defaultBase <= 36 && Unsigned(x) != "" && SignFits(x, o, negative, signed)
    ensures Ended(AfterSign(Unsigned(x), o, negative), o, signed) == Outcome(x, o, signed)
  {
    if x.prefix != "" {
      PrefixTwo(x.prefix);
      WithPrefix(x, o, negative, signed);
    } else if (x.digits + x.rest)[0] == '0' {
      WithZero(x, o, negative, signed);
    } else {
      WithoutPrefix(x, o, negative, signed);
    }
  }

  lemma {:induction false} SpacesGone(spaces: string, text: string)
    requires forall i :: 0 <= i < |spaces| ==> Space(spaces[i])
    requires text == "" || !Space(text[0])
    ensures DropSpaces(spaces + text) == text
  {
    if spaces == "" {
      assert spaces + text == text;
      if text != "" {
        SpaceIs(text[0]);
      }
    } else {
      SpaceIs(spaces[0]);
      assert (spaces + text)[1..] == spaces[1..] + text;
      SpacesGone(spaces[1..], text);
    }
  }

  lemma {:induction false} TrimmedIs(s: string, o: Options, x: Split)
    requires Splits(s, o, x)
    ensures Trimmed(s, o) == x.sign + Unsigned(x)
  {
    if o.skipSpace {
      SpacesGone(x.spaces, x.sign + Unsigned(x));
    }
  }

  lemma {:induction false} ParseText(s: string, t: string, o: Options, signed: bool)
    requires t == Trimmed(s, o) && (s == "" ==> t == "")
    ensures Parse(s, o, signed) ==
            if t == "" then Failed(NoDigits)
            else if t[0] == '-' then
              (if !signed then Failed(NegUnsigned) else if |t| == 1 then Failed(NoDigits) else Ended(AfterSign(t[1..], o, true), o, signed))
            else if t[0] == '+' then
              (if o.noPlus then Failed(UnallowedPosSign) else if |t| == 1 then Failed(NoDigits)
               else Ended(AfterSign(t[1..], o, false), o, signed))
            else Ended(AfterSign(t, o, false), o, signed)
  {
  }

  /** A sign that is refused, or followed by nothing. */
  lemma {:induction false} EarlyEnd(s: string, o: Options, x: Split, signed: bool)
    requires Trimmed(s, o) == x.sign + Unsigned(x) && x.sign in ["", "+", "-"]
    requires Unsigned(x) == "" || (x.sign == "-" && !signed) || (x.sign == "+" && o.noPlus)
    ensures Parse(s, o, signed) == Outcome(x, o, signed)
  {
    ParseText(s, x.sign + Unsigned(x), o, signed);
  }

  /** The parts of a text decide what the parse returns: the number and the rest, or which error. */
  lemma {:induction false} ParseIs(s: string, o: Options, x: Split, signed: bool)
    requires Splits(s, o, x) && o.defaultBase <= 36
    ensures Parse(s, o, signed) == Outcome(x, o, signed)
  {
    var t := x.sign + Unsigned(x);
    TrimmedIs(s, o, x);
    if Unsigned(x) == "" || (x.sign == "-" && !signed) || (x.sign == "+" && o.noPlus) {
      EarlyEnd(s, o, x, signed);
    } else {
      UnsignedIs(s, o, x, x.sign == "-", signed);
      ParseText(s, t, o, signed);
      assert t[|x.sign|..] == Unsigned(x);
    }
  }

  // ------------------------------------------------- every text falls into parts

  lemma {:induction false} SpacesOf(s: string) returns (spaces: string, text: string)
    ensures s == spaces + text && (forall i :: 0 <= i < |spaces| ==> Space(spaces[i])) && (text == "" || !Space(text[0]))
  {
    if s != "" && Space(s[0]) {
      spaces, text := SpacesOf(s[1..]);
      spaces := [s[0]] + spaces;
      assert s == [s[0]] + s[1..];
    } else {
      spaces, text := "", s;
    }
  }

  lemma {:induction false} DigitsOf(s: string, base: nat) returns (digits: string, values: seq<nat>, rest: string)
    ensures s == digits + rest && |values| == |digits|
    ensures forall i :: 0 <= i < |digits| ==> values[i] < base && Digit(digits[i], values[i])
    ensures rest == "" || !DigitBelow(rest[0], base)
  {
    if s != "" && DigitBelow(s[0], base) {
      var d: nat :| d < base && Digit(s[0], d);
      digits, values, rest := DigitsOf(s[1..], base);
      digits, values := [s[0]] + digits, [d] + values;
      assert s == [s[0]] + s[1..];
    } else {
      digits, values, rest := "", [], s;
    }
  }

  lemma {:induction false} SignOf(text: string) returns (sign: string, unsigned: string)
    ensures text == sign + unsigned && sign in ["", "+", "-"] && (sign == "" ==> unsigned == "" || unsigned[0] !in "+-")
  {
    var n := if text != "" && text[0] in "+-" then 1 else 0;
    sign, unsigned := text[..n], text[n..];
    assert n == 1 ==> sign == [text[0]];
  }

  lemma {:induction false} PrefixIn(unsigned: string) returns (prefix: string, numeral: string)
    ensures unsigned == prefix + numeral
    ensures if prefix == "" then |numeral| < 2 || PrefixOf(numeral[..2]) == 0 else PrefixOf(prefix) > 0
  {
    var k := if |unsigned| >= 2 && PrefixOf(unsigned[..2]) > 0 then 2 else 0;
    prefix, numeral := unsigned[..k], unsigned[k..];
  }

  lemma {:induction false} EveryTextSplits(s: string, o: Options) returns (x: Split)
    ensures Splits(s, o, x)
  {
    var spaces, text := "", s;
    if o.skipSpace {
      spaces, text := SpacesOf(s);
    }
    var sign, unsigned := SignOf(text);
    var prefix, numeral := PrefixIn(unsigned);
    var base := if prefix != "" then PrefixOf(prefix) else if ['0'] <= numeral then 8 else o.defaultBase;
    var digits, values, rest := DigitsOf(numeral, base);
    x := Split(spaces, sign, prefix, digits, values, rest);
  }

  // ------------------------------------------------------------------ the results

  /** The text is read as its parts say. */
  ghost predicate Understood(s: string, o: Options, signed: bool, p: Parsed) {
    exists x :: Splits(s, o, x) && p == Outcome(x, o, signed)
  }

  /** There is one way to understand a text, and it is the parse. */
  lemma {:induction false} ParseExactly(s: string, o: Options, signed: bool, p: Parsed)
    requires o.defaultBase <= 36
    ensures p == Parse(s, o, signed) <==> Understood(s, o, signed, p)
  {
    if p == Parse(s, o, signed) {
      var x := EveryTextSplits(s, o);
      ParseIs(s, o, x, signed);
    }
    if Understood(s, o, signed, p) {
      var x :| Splits(s, o, x) && p == Outcome(x, o, signed);
      ParseIs(s, o, x, signed);
    }
  }

  /** An unsigned text with a minus sign is never a number. */
  lemma {:induction false} NoUnsignedMinus(s: string, o: Options, x: Split)
    requires Splits(s, o, x) && o.defaultBase <= 36 && x.sign == "-"
    ensures Parse(s, o, false) == Failed(NegUnsigned)
  {
    ParseIs(s, o, x, false);
  }

  // ---------------------------------------------------------------- printed texts

  /** A digit of a printed number, in capitals or not. */
  ghost predicate Face(ch: char, upper: bool) {
    '0' <= ch <= '9' || (if upper then 'A' <= ch <= 'Z' else 'a' <= ch <= 'z')
  }

  lemma {:induction false} DigitFaces(n: nat, base: nat, upper: bool, i: nat)
    requires 2 <= base <= 36 && i < |DigitsIn(n, base, upper)|
    ensures Face(DigitsIn(n, base, upper)[i], upper)
    decreases n
  {
    if n >= base {
      DivSmaller(n, base);
      if i < |DigitsIn(n / base, base, upper)| {
        DigitFaces(n / base, base, upper, i);
      }
    }
  }

  /** The prefix that is asked for. */
  ghost function PrefixText(base: nat, st: Style): string {
    if !st.prefix then ""
    else if base == 2 then (if st.upperPrefix then "0B" else "0b")
    else if base == 8 then (if st.bareOctal then "0" else if st.upperPrefix then "0O" else "0o")
    else if base == 16 then (if st.upperPrefix then "0X" else "0x")
    else ""
  }

  /** A printed number is sign, prefix and digits in the letters asked for, without a leading zero, and the digits are worth the number. */
  lemma {:induction false} PrintedForm(n: nat, base: nat, st: Style)
    requires base in {2, 8, 10, 16} && (st.prefix ==> base != 10)
    ensures var d := DigitsIn(n, base, st.upper);
            && Printed(n, base, st) == (if st.plus then "+" else "") + (PrefixText(base, st) + d)
            && (forall i :: 0 <= i < |d| ==> Face(d[i], st.upper)) && (d[0] == '0' ==> d == "0")
            && exists values :: |values| == |d| && Worth(values, base) == n && forall i :: 0 <= i < |d| ==> values[i] < base && Digit(d[i], values[i])
  {
    var d := DigitsIn(n, base, st.upper);
    forall i | 0 <= i < |d| ensures Face(d[i], st.upper) {
      DigitFaces(n, base, st.upper, i);
    }
    DigitsWorth(n, base, st.upper);
    var values: seq<nat> := seq(|d|, i requires 0 <= i < |d| => DigitOf(d[i]));
    forall i | 0 <= i < |d| ensures values[i] < base && Digit(d[i], values[i]) {
      assert DigitOf(d[i]) < base;
    }
    ValueIsWorth(d, values, base);
  }
}
