/** The two parsers and the printer of lib/convert.c. */
module Convert {
  import opened Words
  import opened Arith
  import opened ConvertSpec

  // -------------------------------------------------------------- the digit loops

  /** One more digit: the 64-bit product or sum overflows exactly when the digits are worth too much. */
  lemma {:induction false} OneDigit(s: string, base: nat, k: nat)
    requires k < |s| && AllDigits(s[..k], base) && DigitOf(s[k]) < base && Value(s[..k], base) < U64_LIMIT
    ensures Value(s[..k + 1], base) == Value(s[..k], base) * base + DigitOf(s[k]) && AllDigits(s[..k + 1], base)
    ensures Value(s[..k + 1], base) >= U64_LIMIT ==> Value(s[..Run(s, base)], base) >= U64_LIMIT
  {
    assert s[..k + 1] == s[..k] + [s[k]];
    ValueSnoc(s[..k], base, s[k]);
    RunAtLeast(s, base, k + 1);
    var n := Run(s, base);
    assert s[..n][..k + 1] == s[..k + 1];
    ValueGrows(s[..n], k + 1, base);
  }

  /** The loop of convert_cstr_to_64int; `z` is the text with its terminating NUL. */
  method DigitsOfCstr(z: string, at: nat, base: nat, zeroSeen: bool, o: Options) returns (p: Parsed)
    requires at < |z| && z[|z| - 1] == '\0' && '\0' !in z[..|z| - 1]
    ensures p == Body(z[at..|z| - 1], base, zeroSeen, o)
  {
    ghost var s := z[at..|z| - 1];
    var i, result, found := at, 0, zeroSeen;
    ghost var k := 0;
    assert s[..0] == "";
    while z[i] != '\0' && DigitOf(z[i]) < base
      invariant 0 <= k && i == at + k < |z| && AllDigits(s[..k], base)
      invariant result == Value(s[..k], base) < U64_LIMIT
      invariant found == (zeroSeen || k > 0)
      decreases |z| - i
    {
      assert i < |z| - 1 && s[k] == z[i];
      OneDigit(s, base, k);
      found := true;
      var next := result * base + DigitOf(z[i]);
      if next >= U64_LIMIT {
        return Failed(Overflow);
      }
      result := next;
      i := i + 1;
      k := k + 1;
    }
    assert z[i] == '\0' ==> i == |z| - 1 by {
      assert i < |z| - 1 ==> z[i] in z[..|z| - 1];
    }
    assert s[k..] == z[i..|z| - 1];
    RunUnique(s, base, k);
    if z[i] != '\0' && !o.dontParseToEnd {
      return Failed(InvalidChar);
    }
    if !found {
      return Failed(NoDigits);
    }
    return Number(result, z[i..|z| - 1]);
  }

  /** The loop of convert_sv_to_64int, which drops characters from the front of a view. */
  method DigitsOfView(sv0: string, base: nat, zeroSeen: bool, o: Options) returns (p: Parsed)
    ensures p == Body(sv0, base, zeroSeen, o)
  {
    var sv, result, found := sv0, 0, zeroSeen;
    ghost var k := 0;
    assert sv0[..0] == "";
    while sv != "" && DigitOf(sv[0]) < base
      invariant 0 <= k <= |sv0| && sv == sv0[k..] && AllDigits(sv0[..k], base)
      invariant result == Value(sv0[..k], base) < U64_LIMIT
      invariant found == (zeroSeen || k > 0)
      decreases |sv|
    {
      OneDigit(sv0, base, k);
      found := true;
      var next := result * base + DigitOf(sv[0]);
      if next >= U64_LIMIT {
        return Failed(Overflow);
      }
      result := next;
      sv := sv[1..];
      k := k + 1;
    }
    RunUnique(sv0, base, k);
    if sv != "" && !o.dontParseToEnd {
      return Failed(InvalidChar);
    }
    if !found {
      return Failed(NoDigits);
    }
    return Number(result, sv);
  }

  // ------------------------------------------------------------------ the parsers

  /** Text with a NUL at its end and nowhere else. */
  ghost predicate Terminated(z: string) {
    |z| > 0 && z[|z| - 1] == '\0' && '\0' !in z[..|z| - 1]
  }

  ghost function Text(z: string, at: nat): string
    requires at < |z|
  {
    z[at..|z| - 1]
  }

  lemma {:induction false} TextStep(z: string, i: nat)
    requires Terminated(z) && i < |z|
    ensures z[i] == '\0' <==> Text(z, i) == ""
    ensures z[i] != '\0' ==> i + 1 < |z| && Text(z, i)[0] == z[i] && Text(z, i)[1..] == Text(z, i + 1)
  {
    assert i < |z| - 1 ==> z[i] in z[..|z| - 1];
  }

  /** Both parsers end alike: a signed result must fit, and a negative one is refused. */
  method Finished(p: Parsed, negative: bool, signed: bool) returns (r: Parsed)
    ensures r == Finish(p, negative, signed)
  {
    if p.Failed? {
      return p;
    }
    if signed {
      if p.value > INT64_MAX {
        return Failed(Overflow);
      }
    }
    if negative {
      return Failed(Underflow);
    }
    return p;
  }

  /** From the first character behind the sign on. */
  method CstrAfterSign(z: string, at: nat, o: Options, negative: bool, signed: bool) returns (p: Parsed)
    requires Terminated(z) && at < |z| && z[at] != '\0'
    ensures p == match AfterSign(Text(z, at), o, negative)
                 case Refused(code) => Failed(code)
                 case Zero => Number(0, "")
                 case Digits(neg, base, zeroSeen, text) => Finish(Body(text, base, zeroSeen, o), neg, signed)
  {
    TextStep(z, at);
    var i, base, foundZero := at, o.defaultBase, false;
    if z[i] == '0' {
      i := i + 1;
      TextStep(z, i);
      if z[i] == '\0' {
        return Number(0, "");
      }
      var b := PrefixBase(z[i]);
      if b == 0 {
        base, foundZero := 8, true;
      } else {
        if z[i] in o.noPrefix {
          return Failed(UnallowedPrefix);
        }
        if b in o.noBase {
          return Failed(UnallowedBase);
        }
        base := b;
        i := i + 1;
      }
    }
    p := DigitsOfCstr(z, i, base, foundZero, o);
    p := Finished(p, negative, signed);
  }

  method SkipSpaces(z: string) returns (i: nat)
    requires Terminated(z)
    ensures i < |z| && Text(z, i) == DropSpaces(Text(z, 0))
  {
    i := 0;
    while IsSpace(z[i])
      invariant i < |z| && DropSpaces(Text(z, i)) == DropSpaces(Text(z, 0))
      decreases |z| - i
    {
      TextStep(z, i);
      i := i + 1;
    }
    TextStep(z, i);
  }

  /** convert_cstr_to_64int */
  method ParseCstr(z: string, o: Options, signed: bool) returns (p: Parsed)
    requires Terminated(z)
    ensures p == Parse(Text(z, 0), o, signed) && (p == Failed(Overflow) <==> TooLarge(Text(z, 0), o, signed))
  {
    OverflowExactly(Text(z, 0), o, signed);
    TextStep(z, 0);
    if z[0] == '\0' {
      return Failed(NoDigits);
    }
    var i := 0;
    if o.skipSpace {
      i := SkipSpaces(z);
    }
    TextStep(z, i);
    if z[i] == '\0' {
      return Failed(NoDigits);
    }
    var negative := z[i] == '-';
    if negative || z[i] == '+' {
      if negative && !signed {
        return Failed(NegUnsigned);
      }
      if !negative && o.noPlus {
        return Failed(UnallowedPosSign);
      }
      i := i + 1;
      TextStep(z, i);
      if z[i] == '\0' {
        return Failed(NoDigits);
      }
    }
    p := CstrAfterSign(z, i, o, negative, signed);
  }

  method ViewAfterSign(sv0: string, o: Options, negative: bool, signed: bool) returns (p: Parsed)
    requires sv0 != ""
    ensures p == match AfterSign(sv0, o, negative)
                 case Refused(code) => Failed(code)
                 case Zero => Number(0, "")
                 case Digits(neg, base, zeroSeen, text) => Finish(Body(text, base, zeroSeen, o), neg, signed)
  {
    var sv, base, foundZero := sv0, o.defaultBase, false;
    if sv[0] == '0' {
      sv := sv[1..];
      if sv == "" {
        return Number(0, sv);
      }
      var b := PrefixBase(sv[0]);
      if b == 0 {
        base, foundZero := 8, true;
      } else {
        if sv[0] in o.noPrefix {
          return Failed(UnallowedPrefix);
        }
        sv := sv[1..];
        if b in o.noBase {
          return Failed(UnallowedBase);
        }
        base := b;
      }
    }
    p := DigitsOfView(sv, base, foundZero, o);
    p := Finished(p, negative, signed);
  }

  /** convert_sv_to_64int */
  method ParseView(sv0: string, o: Options, signed: bool) returns (p: Parsed)
    ensures p == Parse(sv0, o, signed) && (p == Failed(Overflow) <==> TooLarge(sv0, o, signed))
  {
    OverflowExactly(sv0, o, signed);
    if sv0 == "" {
      return Failed(NoDigits);
    }
    var sv := sv0;
    if o.skipSpace {
      while sv != "" && IsSpace(sv[0])
        invariant DropSpaces(sv) == DropSpaces(sv0)
        decreases |sv|
      {
        sv := sv[1..];
      }
      if sv == "" {
        return Failed(NoDigits);
      }
    }
    var negative := sv[0] == '-';
    if negative || sv[0] == '+' {
      if negative && !signed {
        return Failed(NegUnsigned);
      }
      if !negative && o.noPlus {
        return Failed(UnallowedPosSign);
      }
      sv := sv[1..];
      if sv == "" {
        return Failed(NoDigits);
      }
    }
    p := ViewAfterSign(sv, o, negative, signed);
  }

  /** On any text without NULs the two parsers agree, in code, value and rest. */
  method ParseBoth(s: string, o: Options, signed: bool) returns (a: Parsed, b: Parsed)
    requires '\0' !in s
    ensures a == b
  {
    var z := s + ['\0'];
    assert z[..|z| - 1] == s;
    a := ParseCstr(z, o, signed);
    b := ParseView(s, o, signed);
    assert Text(z, 0) == s;
  }

  // ------------------------------------------------------------------ the printer

  /** The digit loop: backwards from `last`, least significant digit first. */
  method PutDigits(buffer: array<char>, last: nat, n: nat, base: nat, upper: bool) returns (i: nat)
    requires 2 <= base <= 36 && last < buffer.Length && |DigitsIn(n, base, upper)| <= last + 1
    modifies buffer
    ensures i == last + 1 - |DigitsIn(n, base, upper)| && buffer[i..last + 1] == DigitsIn(n, base, upper)
    ensures buffer[..i] == old(buffer[..i]) && buffer[last + 1..] == old(buffer[last + 1..])
  {
    var number: nat := n;
    i := last;
    while true
      invariant i <= last && DigitsIn(n, base, upper) == DigitsIn(number, base, upper) + buffer[i + 1..last + 1]
      invariant buffer[..i + 1] == old(buffer[..i + 1]) && buffer[last + 1..] == old(buffer[last + 1..])
      decreases number
    {
      ghost var tail := buffer[i + 1..last + 1];
      buffer[i] := DigitChar(number % base, upper);
      assert buffer[i..last + 1] == [DigitChar(number % base, upper)] + tail;
      if number < base {
        DivUnique(number, base, 0, number);
        return;
      }
      DivSmaller(number, base);
      assert DigitsIn(number, base, upper) + tail == DigitsIn(number / base, base, upper) + buffer[i..last + 1];
      i := i - 1;
      number := number / base;
    }
  }

  /** Where a zero that is the whole prefix would stand. */
  function ZeroAt(number: nat, base: nat, st: Style): nat
    requires base in {2, 8, 10, 16} && number < U64_LIMIT && (st.prefix ==> base != 10)
  {
    PrintedFits(number, base, st);
    Cap(base) - 2 - |DigitsIn(number, base, st.upper)|
  }

  /** The text, from the last digit backwards. */
  method PutText(buffer: array<char>, number: nat, base: nat, st: Style, ghost zero: char) returns (lo: nat)
    requires base in {2, 8, 10, 16} && number < U64_LIMIT && (st.prefix ==> base != 10) && Cap(base) <= buffer.Length
    requires zero == buffer[ZeroAt(number, base, st)]
    modifies buffer
    ensures var hi := Cap(base) - 1; lo <= hi && buffer[lo..hi] == Written(number, base, st, zero) && buffer[hi..] == old(buffer[hi..])
  {
    PrintedFits(number, base, st);
    ghost var hi := Cap(base) - 1;
    lo := PutDigits(buffer, Cap(base) - 2, number, base, st.upper);
    assert buffer[lo - 1] == buffer[..lo][lo - 1] == zero;
    lo := PutPrefix(buffer, lo, hi, st.prefix, Bare(base, st), PrefixChar(base, st.upperPrefix));
    lo := PutSign(buffer, lo, hi, st.plus);
  }

  /**
   unsigned_to_string_view: the text is in the buffer of its base, from `lo` up to the
   terminator at `hi`. A zero alone is not stored where the text begins but one before,
   so the text is right exactly if the buffer has a zero there already.
   */
  method Print(number: nat, base: nat, buffer: array<char>, st: Style) returns (lo: nat, hi: nat)
    requires base in {2, 8, 10, 16} && number < U64_LIMIT && (st.prefix ==> base != 10) && Cap(2) <= buffer.Length
    modifies buffer
    ensures lo <= hi == Cap(base) - 1 && buffer[hi] == '\0' && buffer[hi + 1..] == old(buffer[hi + 1..])
    ensures buffer[lo..hi] == Written(number, base, st, old(buffer[ZeroAt(number, base, st)]))
    ensures buffer[lo..hi] == Printed(number, base, st) <==> (Bare(base, st) ==> old(buffer[ZeroAt(number, base, st)]) == '0')
  {
    hi := Cap(base) - 1;
    buffer[hi] := '\0';
    ghost var end, zero := buffer[hi..], buffer[ZeroAt(number, base, st)];
    assert end[0] == '\0' && end[1..] == old(buffer[hi + 1..]);
    lo := PutText(buffer, number, base, st, zero);
    assert buffer[hi + 1..] == buffer[hi..][1..];
    WrittenExactly(number, base, st, zero);
  }

  method PutPrefix(buffer: array<char>, at: nat, ghost hi: nat, prefix: bool, bare: bool, ch: char) returns (lo: nat)
    requires at < hi < buffer.Length && (prefix ==> at >= 2)
    modifies buffer
    ensures lo == (if !prefix then at else if bare then at - 1 else at - 2)
    ensures buffer[lo..hi] == (if !prefix then "" else if bare then [old(buffer[at - 1])] else ['0', ch]) + old(buffer[at..hi])
    ensures buffer[hi..] == old(buffer[hi..])
  {
    lo := at;
    if prefix {
      buffer[at - 2] := '0';
      if bare {
        lo := lo + 1;
      } else {
        buffer[at - 1] := ch;
      }
      lo := lo - 2;
    }
  }

  method PutSign(buffer: array<char>, at: nat, ghost hi: nat, plus: bool) returns (lo: nat)
    requires at < hi < buffer.Length && (plus ==> at >= 1)
    modifies buffer
    ensures lo == (if plus then at - 1 else at)
    ensures buffer[lo..hi] == (if plus then "+" else "") + old(buffer[at..hi]) && buffer[hi..] == old(buffer[hi..])
  {
    lo := at;
    if plus {
      lo := at - 1;
      PutFront(buffer, lo, hi, '+');
    }
  }

  /** One more character in front of the text. */
  method PutFront(buffer: array<char>, i: nat, ghost hi: nat, ch: char)
    requires i < hi < buffer.Length
    modifies buffer
    ensures buffer[i..hi] == [ch] + old(buffer[i + 1..hi]) && buffer[hi..] == old(buffer[hi..])
  {
    buffer[i] := ch;
  }

  /** What is printed into a buffer is parsed back from it, with a zero alone as prefix only from a buffer that has it. */
  method PrintThenParse(number: nat, base: nat, buffer: array<char>, st: Style, o: Options) returns (p: Parsed)
    requires base in {2, 8, 10, 16} && number < U64_LIMIT && (st.prefix ==> base != 10) && Cap(2) <= buffer.Length && Accepts(o, base, st)
    modifies buffer
    ensures (Bare(base, st) ==> old(buffer[ZeroAt(number, base, st)]) == '0') ==> p == Number(number, "")
  {
    var lo, hi := Print(number, base, buffer, st);
    RoundTrip(number, base, st, o, false);
    p := ParseView(buffer[lo..hi], o, false);
  }

  /** Five with a zero alone as prefix, printed over a buffer of ones, reads thirteen. */
  method BareZeroLost(o: Options) returns (text: string, p: Parsed)
    requires o.defaultBase == 8
    ensures text == "15" && p == Number(13, "")
  {
    var buffer := new char[Cap(2)](_ => '1');
    var st := Style(true, false, false, false, true);
    var lo, hi := Print(5, 8, buffer, st);
    text := buffer[lo..hi];
    assert text == "15" by {
      assert DigitsIn(5, 8, false) == "5";
    }
    p := ParseView(text, o, false);
    RunUnique(text, 8, 2);
    assert text[..2] == "15" && Value("15", 8) == 13;
  }
}
