/** What lib/convert.c parses and prints: numbers as text, in bases 2, 8, 10, 16 and 36. */
module ConvertSpec {
  import opened Words
  import opened Arith

  // -------------------------------------------------------------------- digits

  /** The value of a character as a digit, or 255. */
  function DigitOf(ch: char): nat {
    if '0' <= ch <= '9' then ch as int - '0' as int
    else if 'A' <= ch <= 'Z' then 10 + (ch as int - 'A' as int)
    else if 'a' <= ch <= 'z' then 10 + (ch as int - 'a' as int)
    else 255
  }

  function DigitChar(d: nat, upper: bool): char
    requires d < 36
  {
    if d < 10 then '0' + d as char else if upper then 'A' + (d - 10) as char else 'a' + (d - 10) as char
  }

  lemma {:induction false} DigitTrip(d: nat, upper: bool)
    requires d < 36
    ensures DigitOf(DigitChar(d, upper)) == d
  {
  }

  ghost predicate AllDigits(s: string, base: int) {
    forall i :: 0 <= i < |s| ==> DigitOf(s[i]) < base
  }

  function Value(s: string, base: nat): nat {
    if s == "" then 0 else Value(s[..|s| - 1], base) * base + DigitOf(s[|s| - 1])
  }

  /** The longest run of digits at the front. */
  function Run(s: string, base: int): (n: nat)
    ensures n <= |s| && AllDigits(s[..n], base) && (n < |s| ==> DigitOf(s[n]) >= base)
  {
    if s == "" || DigitOf(s[0]) >= base then 0 else
      var n := 1 + Run(s[1..], base);
      assert s[..n] == [s[0]] + s[1..][..n - 1];
      n
  }

  lemma {:induction false} RunUnique(s: string, base: int, n: nat)
    requires n <= |s| && AllDigits(s[..n], base) && (n < |s| ==> DigitOf(s[n]) >= base)
    ensures Run(s, base) == n
  {
  }

  lemma {:induction false} RunAtLeast(s: string, base: int, k: nat)
    requires k <= |s| && AllDigits(s[..k], base)
    ensures k <= Run(s, base)
  {
  }

  lemma {:induction false} ValueSnoc(s: string, base: nat, ch: char)
    ensures Value(s + [ch], base) == Value(s, base) * base + DigitOf(ch)
  {
    assert (s + [ch])[..|s|] == s;
  }

  /** More digits never make the value smaller. */
  lemma {:induction false} ValueGrows(s: string, k: nat, base: nat)
    requires k <= |s| && base >= 1
    ensures Value(s[..k], base) <= Value(s, base)
    decreases |s|
  {
    if k < |s| {
      var t := s[..|s| - 1];
      ValueGrows(t, k, base);
      assert t[..k] == s[..k];
      MulOrder(1, base, Value(t, base));
    } else {
      assert s[..k] == s;
    }
  }

  // ------------------------------------------------------------------- parsing

  datatype Options = Options(defaultBase: nat, noBase: set<int>, noPrefix: set<char>, noPlus: bool, skipSpace: bool, dontParseToEnd: bool)

  datatype Code = Ok | NoDigits | InvalidChar | NegUnsigned | UnallowedPrefix | UnallowedBase | UnallowedPosSign | Underflow | Overflow

  /** A result code; with Ok the number and the text behind it. */
  datatype Parsed = Failed(code: Code) | Number(value: nat, rest: string)

  function IsSpace(ch: char): bool {
    ch == ' ' || '\t' <= ch <= '\r'
  }

  function DropSpaces(s: string): string {
    if s != "" && IsSpace(s[0]) then DropSpaces(s[1..]) else s
  }

  /** What is left once the spaces that the options let pass are gone. */
  function Trimmed(s: string, o: Options): string {
    if o.skipSpace then DropSpaces(s) else s
  }

  /** What stands before the digits. */
  datatype Head = Refused(code: Code) | Zero | Digits(negative: bool, base: nat, zeroSeen: bool, text: string)

  function PrefixBase(ch: char): nat {
    if ch == 'a' || ch == 'A' then 36 else if ch == 'b' || ch == 'B' then 2
    else if ch == 'o' || ch == 'O' then 8 else if ch == 'x' || ch == 'X' then 16 else 0
  }

  /** Zeros and prefixes. */
  function AfterSign(s: string, o: Options, negative: bool): Head
    requires s != ""
  {
    if s[0] != '0' then Digits(negative, o.defaultBase, false, s)
    else if |s| == 1 then Zero
    else
      var base := PrefixBase(s[1]);
      if base == 0 then Digits(negative, 8, true, s[1..])
      else if s[1] in o.noPrefix then Refused(UnallowedPrefix)
      else if base in o.noBase then Refused(UnallowedBase)
      else Digits(negative, base, false, s[2..])
  }

  function Heading(s: string, o: Options, signed: bool): Head {
    if s == "" then Refused(NoDigits)
    else
      var t := Trimmed(s, o);
      if t == "" then Refused(NoDigits)
      else if t[0] == '-' then
        if !signed then Refused(NegUnsigned) else if |t| == 1 then Refused(NoDigits) else AfterSign(t[1..], o, true)
      else if t[0] == '+' then
        if o.noPlus then Refused(UnallowedPosSign) else if |t| == 1 then Refused(NoDigits) else AfterSign(t[1..], o, false)
      else AfterSign(t, o, false)
  }

  /** The digits: what they are worth decides, not how they are read. */
  function Body(s: string, base: nat, zeroSeen: bool, o: Options): Parsed {
    var n := Run(s, base);
    if Value(s[..n], base) >= U64_LIMIT then Failed(Overflow)
    else if n < |s| && !o.dontParseToEnd then Failed(InvalidChar)
    else if n == 0 && !zeroSeen then Failed(NoDigits)
    else Number(Value(s[..n], base), s[n..])
  }

  const INT64_MAX := 0x7fff_ffff_ffff_ffff

  function Finish(p: Parsed, negative: bool, signed: bool): Parsed {
    if p.Failed? then p
    else if signed && p.value > INT64_MAX then Failed(Overflow)
    else if negative then Failed(Underflow)
    else p
  }

  function Parse(s: string, o: Options, signed: bool): Parsed {
    match Heading(s, o, signed)
    case Refused(code) => Failed(code)
    case Zero => Number(0, "")
    case Digits(negative, base, zeroSeen, text) => Finish(Body(text, base, zeroSeen, o), negative, signed)
  }

  // ------------------------------------------------------------------- printing

  datatype Style = Style(prefix: bool, plus: bool, upper: bool, upperPrefix: bool, bareOctal: bool)

  /** The digits of a number, most significant first. */
  function DigitsIn(n: nat, base: nat, upper: bool): (s: string)
    requires 2 <= base <= 36
    ensures |s| > 0
    decreases n
  {
    if n < base then [DigitChar(n, upper)] else
      DivSmaller(n, base);
      DigitsIn(n / base, base, upper) + [DigitChar(n % base, upper)]
  }

  lemma {:induction false} DivSmaller(n: nat, base: nat)
    requires 2 <= base <= n
    ensures 0 < n / base < n && n == n / base * base + n % base
  {
    MulOrder(2, base, n / base);
  }

  /** They are digits, they are worth the number, and only zero starts with a zero. */
  lemma {:induction false} DigitsWorth(n: nat, base: nat, upper: bool)
    requires 2 <= base <= 36
    ensures var s := DigitsIn(n, base, upper); AllDigits(s, base) && Value(s, base) == n && (s[0] == '0' <==> n == 0)
    decreases n
  {
    if n < base {
      DigitTrip(n, upper);
      assert DigitsIn(n, base, upper)[..0] == "";
      FirstDigit(n, upper);
    } else {
      DivSmaller(n, base);
      DigitsWorth(n / base, base, upper);
      DigitTrip(n % base, upper);
      ValueSnoc(DigitsIn(n / base, base, upper), base, DigitChar(n % base, upper));
    }
  }

  lemma {:induction false} FirstDigit(d: nat, upper: bool)
    requires d < 36
    ensures DigitChar(d, upper) == '0' <==> d == 0
    ensures DigitChar(d, upper) != '+' && DigitChar(d, upper) != '-' && !IsSpace(DigitChar(d, upper))
  {
  }

  function Power(b: nat, k: nat): nat {
    if k == 0 then 1 else b * Power(b, k - 1)
  }

  /** A number below base^k has at most k digits. */
  lemma {:induction false} DigitCount(n: nat, base: nat, upper: bool, k: nat)
    requires 2 <= base <= 36 && k > 0 && n < Power(base, k)
    ensures |DigitsIn(n, base, upper)| <= k
    decreases k
  {
    if n >= base {
      DivSmaller(n, base);
      if k == 1 {
        assert Power(base, 0) == 1;
        assert false;
      }
      if n / base >= Power(base, k - 1) {
        MulOrder(Power(base, k - 1), n / base, base);
        assert false;
      }
      DigitCount(n / base, base, upper, k - 1);
    }
  }

  function PrefixChar(base: nat, upper: bool): char {
    if base == 2 then (if upper then 'B' else 'b') else if base == 8 then (if upper then 'O' else 'o') else if upper then 'X' else 'x'
  }

  /** The prefix is to be a zero alone. */
  predicate Bare(base: nat, st: Style) {
    st.prefix && base == 8 && st.bareOctal
  }

  /** The text of a number, where `zero` stands for a zero that is the whole prefix. */
  function Written(n: nat, base: nat, st: Style, zero: char): string
    requires 2 <= base <= 36
  {
    (if st.plus then "+" else "") +
    ((if Bare(base, st) then [zero] else if st.prefix then ['0', PrefixChar(base, st.upperPrefix)] else "") + DigitsIn(n, base, st.upper))
  }

  function Printed(n: nat, base: nat, st: Style): string
    requires 2 <= base <= 36
  {
    Written(n, base, st, '0')
  }

  lemma {:induction false} WrittenExactly(n: nat, base: nat, st: Style, zero: char)
    requires 2 <= base <= 36
    ensures Written(n, base, st, zero) == Printed(n, base, st) <==> (Bare(base, st) ==> zero == '0')
  {
    if Bare(base, st) {
      var k := if st.plus then 1 else 0;
      assert Written(n, base, st, zero)[k] == zero && Printed(n, base, st)[k] == '0';
    }
  }

  /** The options under which a printed number is welcome. */
  ghost predicate Accepts(o: Options, base: nat, st: Style) {
    && (st.plus ==> !o.noPlus)
    && (if st.prefix then Bare(base, st) || (PrefixChar(base, st.upperPrefix) !in o.noPrefix && base !in o.noBase)
        else o.defaultBase == base)
  }

  /** Digits and nothing else parse to their value. */
  lemma {:induction false} BodyOfDigits(n: nat, base: nat, upper: bool, o: Options)
    requires 2 <= base <= 36 && n < U64_LIMIT
    ensures Body(DigitsIn(n, base, upper), base, false, o) == Number(n, "")
  {
    var s := DigitsIn(n, base, upper);
    DigitsWorth(n, base, upper);
    assert s[..|s|] == s && s[|s|..] == "";
    RunUnique(s, base, |s|);
  }

  lemma {:induction false} FirstOfDigits(n: nat, base: nat, upper: bool)
    requires 2 <= base <= 36
    ensures var c := DigitsIn(n, base, upper)[0]; c != '+' && c != '-' && !IsSpace(c) && DigitOf(c) < base
    decreases n
  {
    if n < base {
      FirstDigit(n, upper);
    } else {
      DivSmaller(n, base);
      FirstOfDigits(n / base, base, upper);
    }
  }

  /** The rest of the parse yields the number and nothing is left. */
  ghost predicate LeadsTo(h: Head, n: nat, o: Options) {
    match h
    case Zero => n == 0
    case Digits(negative, base, zeroSeen, text) => !negative && Body(text, base, zeroSeen, o) == Number(n, "")
    case Refused(_) => false
  }

  lemma {:induction false} PlainDigits(d: string, n: nat, o: Options)
    requires d != "" && (d[0] == '0' ==> n == 0 && |d| == 1) && Body(d, o.defaultBase, false, o) == Number(n, "")
    ensures LeadsTo(AfterSign(d, o, false), n, o)
  {
  }

  lemma {:induction false} PrefixedDigits(d: string, n: nat, o: Options, c: char)
    requires PrefixBase(c) != 0 && c !in o.noPrefix && PrefixBase(c) !in o.noBase
    requires Body(d, PrefixBase(c), false, o) == Number(n, "")
    ensures LeadsTo(AfterSign(['0', c] + d, o, false), n, o)
  {
    assert (['0', c] + d)[2..] == d;
  }

  lemma {:induction false} BareDigits(d: string, n: nat, o: Options)
    requires d != "" && DigitOf(d[0]) < 8 && Body(d, 8, false, o) == Number(n, "")
    ensures LeadsTo(AfterSign(['0'] + d, o, false), n, o)
  {
    assert (['0'] + d)[1..] == d;
  }

  lemma {:induction false} SignedText(t: string, n: nat, o: Options, plus: bool, signed: bool)
    requires t != "" && t[0] != '+' && t[0] != '-' && !IsSpace(t[0]) && LeadsTo(AfterSign(t, o, false), n, o)
    requires (plus ==> !o.noPlus) && (signed ==> n <= INT64_MAX)
    ensures Parse((if plus then "+" else "") + t, o, signed) == Number(n, "")
  {
    var s := (if plus then "+" else "") + t;
    assert if plus then s[0] == '+' && s[1..] == t else s == t;
  }

  /** Printing and parsing again gives the number back, in either parser and signed where it fits. */
  lemma {:induction false} RoundTrip(n: nat, base: nat, st: Style, o: Options, signed: bool)
    requires base in {2, 8, 10, 16} && n < U64_LIMIT && (st.prefix ==> base != 10) && Accepts(o, base, st)
    requires signed ==> n <= INT64_MAX
    ensures Parse(Printed(n, base, st), o, signed) == Number(n, "")
  {
    var d := DigitsIn(n, base, st.upper);
    DigitsWorth(n, base, st.upper);
    BodyOfDigits(n, base, st.upper, o);
    FirstOfDigits(n, base, st.upper);
    var c := PrefixChar(base, st.upperPrefix);
    var t := (if Bare(base, st) then ['0'] else if st.prefix then ['0', c] else "") + d;
    if Bare(base, st) {
      BareDigits(d, n, o);
    } else if st.prefix {
      PrefixedDigits(d, n, o, c);
    } else {
      assert t == d;
      PlainDigits(d, n, o);
    }
    SignedText(t, n, o, st.plus, signed);
  }

  /** A signed text that starts with a minus is accepted only where nothing follows but a zero. */
  lemma {:induction false} NegativeOnlyZero(s: string, o: Options)
    requires Trimmed(s, o) != "" && Trimmed(s, o)[0] == '-'
    ensures Parse(s, o, true).Number? <==> Trimmed(s, o) == "-0"
  {
    var t := Trimmed(s, o);
    if |t| > 1 {
      assert t == ['-'] + t[1..];
    }
  }

  /** The run of digits is worth too much: for 64 bits, or, where a signed number could be read, for its 63. */
  ghost predicate TooLarge(s: string, o: Options, signed: bool) {
    var h := Heading(s, o, signed);
    h.Digits? &&
    var n := Run(h.text, h.base);
    var v := Value(h.text[..n], h.base);
    v >= U64_LIMIT || (signed && v > INT64_MAX && (n == |h.text| || o.dontParseToEnd))
  }

  /** Overflow is reported exactly then. */
  lemma {:induction false} OverflowExactly(s: string, o: Options, signed: bool)
    ensures Parse(s, o, signed) == Failed(Overflow) <==> TooLarge(s, o, signed)
  {
    HeadingCode(s, o, signed);
    var h := Heading(s, o, signed);
    if h.Digits? && Run(h.text, h.base) == 0 {
      assert Value(h.text[..0], h.base) == 0;
    }
  }

  lemma {:induction false} HeadingCode(s: string, o: Options, signed: bool)
    ensures var h := Heading(s, o, signed); h.Refused? ==> h.code != Overflow
  {
  }

  // ------------------------------------------------------------------ capacities

  /** The buffer sizes of convert.h, terminator included. */
  function Cap(base: nat): nat {
    if base == 2 then 68 else if base == 8 then 26 else if base == 10 then 22 else 20
  }

  /** How many digits a 64-bit number can have. */
  function MaxDigits(base: nat): nat {
    if base == 2 then 64 else if base == 8 then 22 else if base == 10 then 20 else 16
  }

  lemma {:induction false} PowerAdd(b: nat, i: nat, j: nat)
    ensures Power(b, i + j) == Power(b, i) * Power(b, j)
  {
    if i > 0 {
      PowerAdd(b, i - 1, j);
      assert Power(b, i + j) == b * (Power(b, i - 1) * Power(b, j));
    }
  }

  lemma {:induction false} Powers()
    ensures Power(2, 64) == U64_LIMIT && Power(16, 16) == U64_LIMIT && Power(8, 22) >= U64_LIMIT && Power(10, 20) >= U64_LIMIT
  {
    PowersOfTwo();
    PowersOfTen();
  }

  lemma {:induction false} PowersOfTwo()
    ensures Power(2, 64) == U64_LIMIT && Power(16, 16) == U64_LIMIT && Power(8, 22) >= U64_LIMIT
  {
    assert Power(2, 4) == 16 && Power(2, 8) == 256;
    PowerAdd(2, 8, 8);
    PowerAdd(2, 16, 16);
    PowerAdd(2, 32, 32);
    assert Power(16, 4) == 0x1_0000;
    PowerAdd(16, 4, 4);
    PowerAdd(16, 8, 8);
    assert Power(8, 3) == 0x200 && Power(8, 5) == 0x8000;
    PowerAdd(8, 3, 3);
    PowerAdd(8, 6, 5);
    PowerAdd(8, 11, 11);
  }

  lemma {:induction false} PowersOfTen()
    ensures Power(10, 20) >= U64_LIMIT
  {
    assert Power(10, 3) == 1000 && Power(10, 5) == 10_0000;
    PowerAdd(10, 5, 5);
    PowerAdd(10, 10, 10);
  }

  /** Digits, prefix, sign and terminator together fit the buffer of the base. */
  lemma {:induction false} PrintedFits(n: nat, base: nat, st: Style)
    requires base in {2, 8, 10, 16} && n < U64_LIMIT && (st.prefix ==> base != 10)
    ensures |DigitsIn(n, base, st.upper)| <= MaxDigits(base) && |Printed(n, base, st)| + 1 <= Cap(base)
    ensures |DigitsIn(n, base, st.upper)| + (if st.prefix then 2 else 0) + (if st.plus then 1 else 0) <= Cap(base) - 1
  {
    Powers();
    DigitCount(n, base, st.upper, MaxDigits(base));
  }
}
