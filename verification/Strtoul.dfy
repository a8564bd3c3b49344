/**
 strtoul of kernel/perlwrap.c: white space, a sign, a base prefix, then digits gathered by a
 saturating loop.  The character classes are those of kernel/ctype.c.
 */
module Strtoul {
  import opened Numbers

  const ULONG_MAX := 0xFFFF_FFFF

  /** A 32-bit unsigned long: keeping one inside this type is what "never wraps" means. */
  type Word = x: nat | x <= ULONG_MAX

  datatype Option<T> = None | Some(value: T)

  datatype Errno = Quiet | EINVAL | ERANGE

  /** What a call returns, stores through endptr (an offset; None leaves it alone), and sets in errno. */
  datatype Conversion = Conversion(value: nat, end: Option<nat>, errno: Errno)

  // ---------------------------------------------------------------- character classes

  predicate IsSpace(c: char) { 9 <= c as int <= 13 || c == ' ' || c as int == 160 }

  predicate IsUpper(c: char) { 'A' <= c <= 'Z' || (192 <= c as int <= 222 && c as int != 215) }

  predicate IsLower(c: char) { 'a' <= c <= 'z' || (223 <= c as int <= 255 && c as int != 247) }

  function ToUpper(c: char): char { if IsLower(c) then (c as int - 32) as char else c }

  /** The value of a digit or letter; 36 for everything that is neither. */
  function Worth(c: char): nat {
    if '0' <= c <= '9' then c as int - '0' as int
    else if 'a' <= c <= 'z' then c as int - 'a' as int + 10
    else if 'A' <= c <= 'Z' then c as int - 'A' as int + 10
    else 36
  }

  // ---------------------------------------------------------------- what a text means

  /** The first position from i on that holds no white space. */
  function SkipSpace(s: string, i: nat): (r: nat)
    requires i <= |s|
    ensures i <= r <= |s| && !IsSpace(At(s, r))
    ensures forall k :: i <= k < r ==> IsSpace(s[k])
    decreases |s| - i
  {
    if i < |s| && IsSpace(s[i]) then SkipSpace(s, i + 1) else i
  }

  function SkipSign(s: string, i: nat): (r: nat)
    requires i <= |s|
    ensures i <= r <= |s|
  {
    if At(s, i) == '-' || At(s, i) == '+' then i + 1 else i
  }

  predicate HexPrefix(s: string, i: nat, base: int) {
    (base == 0 || base == 16) && At(s, i) == '0' && (At(s, i + 1) == 'x' || At(s, i + 1) == 'X')
  }

  /** The position where digits are expected. */
  function DigitsAt(s: string, base: int): (r: nat)
    ensures r <= |s|
  {
    var i := SkipSign(s, SkipSpace(s, 0));
    if HexPrefix(s, i, base) then i + 2 else i
  }

  function BaseOf(s: string, base: int): int {
    var i := SkipSign(s, SkipSpace(s, 0));
    if HexPrefix(s, i, base) then 16 else if base != 0 then base else if At(s, i) == '0' then 8 else 10
  }

  /** The number a digit string denotes, without any bound. */
  function Value(s: string, base: nat): nat {
    if s == [] then 0 else Value(s[..|s| - 1], base) * base + Worth(s[|s| - 1])
  }

  ghost predicate Digits(s: string, base: nat) { forall k :: 0 <= k < |s| ==> Worth(s[k]) < base }

  ghost predicate LongestDigits(s: string, at: nat, end: nat, base: nat) {
    at <= end <= |s| && Digits(s[at..end], base) && Worth(At(s, end)) >= base
  }

  predicate ValidBase(base: int) { base == 0 || 2 <= base <= 36 }

  /** What section 7.20.1.4 of ISO/IEC 9899:1999 asks of strtoul with a 32-bit unsigned long. */
  ghost predicate Converts(s: string, base: int, r: Conversion) {
    if !ValidBase(base) then r == Conversion(0, None, EINVAL)
    else exists end: nat ::
      && LongestDigits(s, DigitsAt(s, base), end, BaseOf(s, base))
      && r == Verdict(s, base, end)
  }

  function Verdict(s: string, base: int, end: nat): Conversion
    requires ValidBase(base) && DigitsAt(s, base) <= end <= |s|
  {
    var sign, at := SkipSpace(s, 0), DigitsAt(s, base);
    var v := Value(s[at..end], BaseOf(s, base));
    if end == at then Conversion(0, Some(if HexPrefix(s, SkipSign(s, sign), base) then at - 1 else 0), Quiet)
    else if v > ULONG_MAX then Conversion(ULONG_MAX, Some(end), ERANGE)
    else Conversion(if At(s, sign) == '-' then Negated(v, TWO32) else v, Some(end), Quiet)
  }

  // ---------------------------------------------------------------- the method

  /** One pass of the loop over a digit: what the two cut-offs decide. */
  lemma CutoffDecides(i: Word, c: nat, base: nat)
    requires 2 <= base <= 36 && c < base
    ensures (i > ULONG_MAX / base || (i == ULONG_MAX / base && c > ULONG_MAX % base)) <==> i * base + c > ULONG_MAX
  {
    var q, r := ULONG_MAX / base, ULONG_MAX % base;
    DivModIdentity(ULONG_MAX, base);
    MulOrder(i, q + 1, base);
    MulOrder(q, i, base);
    MulOrder(q - 1, i, base);
  }

  lemma ValueSnoc(s: string, at: nat, cp: nat, base: nat)
    requires at <= cp < |s| && Digits(s[at..cp], base) && Worth(s[cp]) < base
    ensures Digits(s[at..cp + 1], base)
    ensures Value(s[at..cp + 1], base) == Value(s[at..cp], base) * base + Worth(s[cp])
  {
    hide Worth;
    var t := s[at..cp + 1];
    assert t[..|t| - 1] == s[at..cp] && t[|t| - 1] == s[cp];
  }

  lemma StaysLarge(v: nat, c: nat, base: nat)
    requires 2 <= base && v > ULONG_MAX
    ensures v * base + c > ULONG_MAX
  {
    MulOrder(base, 1, v);
  }

  /** The digit value the loop computes from c, or None where it breaks. */
  function LoopDigit(c: char): (r: Option<nat>)
    ensures r.Some? ==> r.value == Worth(c) || (r.value >= 36 && Worth(c) == 36)
    ensures r.None? ==> Worth(c) == 36
  {
    if '0' <= c <= '9' then Some(c as int - '0' as int)
    else if IsUpper(c) || IsLower(c) then Some(ToUpper(c) as int - 'A' as int + 10)
    else None
  }

  /** The digit loop.  Its accumulator is a Word throughout. */
  method Gather(s: string, at: nat, base: nat) returns (end: nat, i: Word, overflow: bool)
    requires at <= |s| && 2 <= base <= 36
    ensures LongestDigits(s, at, end, base)
    ensures overflow <==> Value(s[at..end], base) > ULONG_MAX
    ensures !overflow ==> i == Value(s[at..end], base)
  {
    hide Value, Digits, Worth, IsUpper, IsLower, LoopDigit;
    var cutoff, cutlim := ULONG_MAX / base, ULONG_MAX % base;
    end, i, overflow := at, 0, false;
    EmptyDigits(base);
    assert s[at..at] == [];
    while end < |s|
      invariant at <= end <= |s| && Digits(s[at..end], base)
      invariant overflow <==> Value(s[at..end], base) > ULONG_MAX
      invariant !overflow ==> i == Value(s[at..end], base)
    {
      var c := LoopDigit(s[end]);
      DigitFacts(s[end]);
      if c == None || c.value >= base {
        return;
      }
      ValueSnoc(s, at, end, base);
      CutoffDecides(i, c.value, base);
      if i > cutoff || (i == cutoff && c.value > cutlim) {
        if overflow { StaysLarge(Value(s[at..end], base), c.value, base); }
        overflow := true;
      } else {
        if overflow { StaysLarge(Value(s[at..end], base), c.value, base); }
        i := i * base + c.value;
      }
      end := end + 1;
    }
    NulIsNoDigit();
  }

  lemma EmptyDigits(base: nat)
    ensures Digits([], base) && Value([], base) == 0
  {
  }

  lemma DigitFacts(c: char)
    ensures var r := LoopDigit(c);
            && (r.Some? ==> r.value == Worth(c) || (r.value >= 36 && Worth(c) == 36))
            && (r.None? ==> Worth(c) == 36)
  {
  }

  lemma NulIsNoDigit()
    ensures Worth(0 as char) == 36
  {
  }

  /** The white-space loop. */
  method SkipSpaces(s: string) returns (i: nat)
    ensures i == SkipSpace(s, 0)
  {
    i := 0;
    while i < |s| && IsSpace(s[i])
      invariant i <= |s| && SkipSpace(s, i) == SkipSpace(s, 0)
    {
      i := i + 1;
    }
  }

  /** Behind the white space and the sign there is no 'X' before the digits, unless the prefix put it there. */
  lemma NoStrayX(s: string)
    ensures var i := SkipSign(s, SkipSpace(s, 0)); i > 0 ==> ToUpper(s[i - 1]) != 'X'
  {
  }

  /** kernel/perlwrap.c, strtoul. */
  method StrToUl(s: string, base: int) returns (r: Conversion)
    ensures Converts(s, base, r)
  {
    hide SkipSpace, IsSpace, ToUpper, IsUpper, IsLower, Value, Digits, Worth;
    if base < 0 || base == 1 || base > 36 {
      return Conversion(0, None, EINVAL);
    }
    var at := SkipSpaces(s);
    ghost var sign := at;
    if at == |s| {
      AllSpace(s, base);
      return Conversion(0, Some(0), Quiet);
    }
    var negative := false;
    if At(s, at) == '-' {
      negative := true;
      at := at + 1;
    } else if At(s, at) == '+' {
      at := at + 1;
    }
    assert at == SkipSign(s, sign);
    var b := base;
    UpperX(At(s, at + 1));
    NoStrayX(s);
    if At(s, at) == '0' {
      if (b == 0 || b == 16) && ToUpper(At(s, at + 1)) == 'X' {
        at := at + 2;
        b := 16;
      } else if b == 0 {
        b := 8;
      }
    } else if b == 0 {
      b := 10;
    }
    assert at == DigitsAt(s, base) && b == BaseOf(s, base);
    var end, i, overflow := Gather(s, at, b);
    if end == at {
      if at >= 2 && ToUpper(s[at - 1]) == 'X' && s[at - 2] == '0' {
        r := Conversion(0, Some(at - 1), Quiet);
      } else {
        r := Conversion(0, Some(0), Quiet);
      }
    } else if overflow {
      r := Conversion(ULONG_MAX, Some(end), ERANGE);
    } else {
      r := Conversion(if negative then Negated(i, TWO32) else i, Some(end), Quiet);
    }
    assert r == Verdict(s, base, end);
  }

  lemma UpperX(c: char)
    ensures ToUpper(c) == 'X' <==> c == 'x' || c == 'X'
  {
  }

  lemma AllSpace(s: string, base: int)
    requires ValidBase(base) && SkipSpace(s, 0) == |s|
    ensures Converts(s, base, Conversion(0, Some(0), Quiet))
  {
    hide SkipSpace;
    NulIsNoDigit();
    EmptyDigits(BaseOf(s, base));
    assert s[|s|..|s|] == [];
    assert LongestDigits(s, DigitsAt(s, base), |s|, BaseOf(s, base));
    assert Verdict(s, base, |s|) == Conversion(0, Some(0), Quiet);
  }

  // ---------------------------------------------------------------- number() then strtoul()

  lemma LongestDigitsUnique(s: string, at: nat, e1: nat, e2: nat, base: nat)
    requires LongestDigits(s, at, e1, base) && LongestDigits(s, at, e2, base)
    ensures e1 == e2
  {
    hide Worth;
    RunOfDigits(s, at, e1, base);
    RunOfDigits(s, at, e2, base);
  }

  lemma RunOfDigits(s: string, at: nat, end: nat, base: nat)
    requires at <= end <= |s| && Digits(s[at..end], base)
    ensures forall k :: at <= k < end ==> Worth(At(s, k)) < base
  {
    forall k | at <= k < end ensures Worth(At(s, k)) < base {
      assert s[at..end][k - at] == s[k];
    }
  }

  /** The outcome is a function of text and base. */
  lemma OutcomeIs(s: string, base: int, r: Conversion, end: nat)
    requires ValidBase(base) && Converts(s, base, r) && LongestDigits(s, DigitsAt(s, base), end, BaseOf(s, base))
    ensures r == Verdict(s, base, end)
  {
    hide SkipSpace, Worth, Value;
    assert BaseOf(s, base) >= 0;
    var e :| LongestDigits(s, DigitsAt(s, base), e, BaseOf(s, base)) && r == Verdict(s, base, e);
    LongestDigitsUnique(s, DigitsAt(s, base), e, end, BaseOf(s, base));
  }

  lemma WorthOfDigit(d: nat, large: bool)
    requires d < 36
    ensures Worth(DigitChar(d, large)) == d
  {
  }

  lemma ValueOfSnoc(s: string, c: char, base: nat)
    ensures Value(s + [c], base) == Value(s, base) * base + Worth(c)
  {
    assert (s + [c])[..|s + [c]| - 1] == s;
  }

  lemma {:induction false} ValueOfZeros(zeros: nat, base: nat)
    ensures Value(Repeat('0', zeros), base) == 0
  {
    if zeros > 0 {
      RepeatSnoc('0', zeros - 1);
      ValueOfZeros(zeros - 1, base);
      ValueOfSnoc(Repeat('0', zeros - 1), '0', base);
    }
  }

  /** Digits printed in any base, behind any zeros, denote the number printed. */
  lemma {:induction false} ValueOfPrinted(zeros: nat, n: nat, base: nat, large: bool)
    requires 2 <= base <= 36
    ensures Digits(Repeat('0', zeros) + DigitsOf(n, base, large), base)
    ensures Value(Repeat('0', zeros) + DigitsOf(n, base, large), base) == n
  {
    hide Value, Worth, DigitChar, Repeat;
    var front := Repeat('0', zeros);
    WorthOfDigit(0, large);
    DivModIdentity(n, base);
    SmallDigit(n, base);
    ZeroChar(large);
    if n < base {
      WorthOfDigit(n, large);
      ValueOfZeros(zeros, base);
      ValueOfSnoc(front, DigitChar(n, large), base);
    } else {
      var last := DigitChar(n % base, large);
      ValueOfPrinted(zeros, n / base, base, large);
      WorthOfDigit(n % base, large);
      var before := front + DigitsOf(n / base, base, large);
      ValueOfSnoc(before, last, base);
      assert before + [last] == front + (DigitsOf(n / base, base, large) + [last]);
      assert Digits(before + [last], base);
    }
  }

  lemma ZeroChar(large: bool)
    ensures DigitChar(0, large) == '0'
  {
  }

  lemma SmallDigit(n: nat, base: nat)
    requires 2 <= base <= 36
    ensures n >= base ==> n / base < n
    ensures n % base < 36
  {
    DivModIdentity(n, base);
    if n >= base { SmallerQuotient(n, base); }
  }

  /** The sign strtoul sees: it takes a printed space for white space. */
  function VisibleSign(u: nat, f: Flags): string { if SignOf(u, f) == [' '] then [] else SignOf(u, f) }

  /** The prefix strtoul sees: it takes an octal prefix for a digit. */
  function VisiblePrefix(base: nat, f: Flags): string { if base == 8 then [] else PrefixOf(base, f) }

  /** Any field as strtoul reads it: spaces, sign, prefix, zeros, digits, spaces. */
  lemma FieldLayout(u: nat, base: nat, width: int, precision: int, f: Flags)
      returns (lead: nat, zeros: nat, tail: string)
    requires u < TWO64 && 2 <= base <= 36
    ensures Blank(tail)
    ensures Field(u, base, width, precision, f) == Repeat(' ', lead) + VisibleSign(u, f) + VisiblePrefix(base, f)
            + (Repeat('0', zeros) + DigitsOf(Magnitude(u, f), base, f.large)) + tail
    ensures zeros == ZeroCount(u, base, width, precision, f) + if base == 8 && f.special then 1 else 0
  {
    hide DigitsOf, SignOf, PrefixOf, Magnitude, Repeat, VisibleSign, VisiblePrefix;
    var head := SignOf(u, f) + PrefixOf(base, f);
    var digits := DigitsOf(Magnitude(u, f), base, f.large);
    NoRepeats();
    var l, z;
    if LeadingSpaces(u, base, width, precision, f) {
      l, z, tail := width - |head| - Max(|digits|, precision), Max(0, precision - |digits|), [];
      Regroup(Repeat(' ', l), head, Repeat('0', z), digits);
      Regroup(Repeat(' ', l) + head, Repeat('0', z), digits, []);
    } else {
      l, z := 0, ZeroCount(u, base, width, precision, f);
      tail := FieldShape(u, base, width, precision, f);
      Regroup(head, head, head, head);
    }
    lead, zeros := Relabel(u, base, f, l, z);
    var a, b := Repeat(' ', l) + head, Repeat(' ', lead) + VisibleSign(u, f) + VisiblePrefix(base, f);
    Regroup(a, Repeat('0', z), digits, tail);
    Regroup(b, Repeat('0', zeros), digits, tail);
  }

  /** A printed space joins the leading spaces, an octal prefix the leading zeros. */
  lemma Relabel(u: nat, base: nat, f: Flags, l: nat, z: nat) returns (lead: nat, zeros: nat)
    ensures Repeat(' ', lead) + VisibleSign(u, f) + VisiblePrefix(base, f) + Repeat('0', zeros)
            == Repeat(' ', l) + (SignOf(u, f) + PrefixOf(base, f)) + Repeat('0', z)
    ensures zeros == z + if base == 8 && f.special then 1 else 0
  {
    lead, zeros := l, z;
    var sign, prefix := SignOf(u, f), PrefixOf(base, f);
    if sign == [' '] {
      lead := l + 1;
      RepeatSnoc(' ', l);
    }
    if base == 8 && prefix != [] {
      zeros := z + 1;
      assert Repeat('0', zeros) == prefix + Repeat('0', z);
    }
    hide Repeat, SignOf, PrefixOf;
    assert Repeat(' ', lead) + VisibleSign(u, f) == Repeat(' ', l) + sign;
    assert VisiblePrefix(base, f) + Repeat('0', zeros) == prefix + Repeat('0', z);
    Regroup(Repeat(' ', lead) + VisibleSign(u, f), VisiblePrefix(base, f), Repeat('0', zeros), []);
    Regroup(Repeat(' ', l) + sign, prefix, Repeat('0', z), []);
    Regroup(Repeat(' ', l), sign, prefix, []);
  }

  lemma SkipsExactly(s: string, k: nat)
    requires k <= |s| && !IsSpace(At(s, k)) && (forall j :: 0 <= j < k ==> IsSpace(s[j]))
    ensures SkipSpace(s, 0) == k
  {
  }

  lemma DigitClass(c: char)
    ensures Worth(c) < 36 ==> !IsSpace(c) && c != '-' && c != '+'
    ensures Worth(c) < 16 ==> c != 'x' && c != 'X'
    ensures Worth(' ') == 36 && Worth(0 as char) == 36
    ensures IsSpace(' ') && !IsSpace('-') && !IsSpace('+') && !IsSpace('0')
  {
  }

  /** Prefix and digits give their base away. */
  predicate Telling(prefix: string, body: string, base: nat)
    requires body != []
  {
    prefix != [] || (base == 8 && body[0] == '0') || (base == 10 && body[0] != '0')
  }

  /** Where strtoul finds the parts of a printed field. */
  lemma PartsFound(text: string, lead: nat, sign: string, prefix: string, body: string, tail: string, base: nat,
      asked: nat)
    requires text == Repeat(' ', lead) + sign + prefix + body + tail
    requires sign in [[], ['-'], ['+']] && Blank(tail) && 2 <= base <= 36
    requires body != [] && Digits(body, base)
    requires prefix == [] || (base == 16 && prefix in [['0', 'x'], ['0', 'X']])
    requires asked == base || (asked == 0 && Telling(prefix, body, base))
    ensures var at := lead + |sign + prefix|;
            && DigitsAt(text, asked) == at && BaseOf(text, asked) == base
            && LongestDigits(text, at, at + |body|, base)
            && text[at..at + |body|] == body
            && (At(text, SkipSpace(text, 0)) == '-' <==> sign == ['-'])
  {
    hide Worth, IsSpace, Repeat, SkipSpace;
    var i, at := lead + |sign|, lead + |sign + prefix|;
    var end := at + |body|;
    assert forall k :: 0 <= k < lead ==> text[k] == Repeat(' ', lead)[k] == ' ';
    assert text[at..end] == body;
    assert text[at] == body[0];
    assert prefix == [] && |body| > 1 ==> text[at + 1] == body[1];
    assert At(text, end) == At(tail, 0);
    DigitClass(body[0]);
    DigitClass(At(text, at + 1));
    assert sign != [] ==> text[lead] == sign[0];
    assert prefix != [] ==> text[i] == '0' && text[i + 1] == prefix[1];
    SkipsExactly(text, lead);
    assert SkipSign(text, lead) == i;
  }

  /** The end of the digits: only spaces follow, and none precedes at once. */
  ghost predicate EndsDigits(text: string, r: Conversion) {
    r.end.Some? && 0 < r.end.value <= |text| && Blank(text[r.end.value..]) && text[r.end.value - 1] != ' '
  }

  lemma PartsRead(text: string, lead: nat, sign: string, prefix: string, body: string, tail: string, base: nat,
      asked: nat, r: Conversion)
    requires text == Repeat(' ', lead) + sign + prefix + body + tail
    requires sign in [[], ['-'], ['+']] && Blank(tail) && 2 <= base <= 36
    requires body != [] && Digits(body, base)
    requires prefix == [] || (base == 16 && prefix in [['0', 'x'], ['0', 'X']])
    requires asked == base || (asked == 0 && Telling(prefix, body, base))
    requires Converts(text, asked, r)
    ensures EndsDigits(text, r)
    ensures var m := Value(body, base);
            if m > ULONG_MAX then r.value == ULONG_MAX && r.errno == ERANGE
            else r.errno == Quiet && r.value == if sign == ['-'] then Negated(m, TWO32) else m
  {
    hide Repeat, Converts, Value, LongestDigits, DigitsAt, BaseOf, SkipSpace, Digits, At, Telling;
    PartsFound(text, lead, sign, prefix, body, tail, base, asked);
    var at := lead + |sign + prefix|;
    OutcomeIs(text, asked, r, at + |body|);
    LastDigit(body, base);
    assert text[at + |body| - 1] == body[|body| - 1];
    assert text[at + |body|..] == tail;
  }

  lemma LastDigit(body: string, base: nat)
    requires body != [] && Digits(body, base) && base <= 36
    ensures body[|body| - 1] != ' '
  {
    assert Worth(body[|body| - 1]) < base;
  }

  /** strtoul reads back everything number() prints, in every base, width, precision and flag
      combination, and stops at the end of its digits; what does not fit 32 bits saturates. */
  lemma PrintThenStrToUl(u: nat, base: nat, width: int, precision: int, f: Flags, r: Conversion)
    requires u < TWO64 && 2 <= base <= 36
    requires Converts(Field(u, base, width, precision, f), base, r)
    ensures EndsDigits(Field(u, base, width, precision, f), r)
    ensures var m := Magnitude(u, f);
            if m > 0xFFFF_FFFF then r.value == 0xFFFF_FFFF && r.errno == ERANGE
            else r.errno == Quiet && r.value == if SignOf(u, f) == ['-'] && m > 0 then 0x1_0000_0000 - m else m
  {
    hide DigitsOf, Magnitude, Repeat, Converts, Value, Field, Digits, EndsDigits;
    var text := Field(u, base, width, precision, f);
    var lead, zeros, tail := FieldLayout(u, base, width, precision, f);
    var body := Repeat('0', zeros) + DigitsOf(Magnitude(u, f), base, f.large);
    ValueOfPrinted(zeros, Magnitude(u, f), base, f.large);
    PartsRead(text, lead, VisibleSign(u, f), VisiblePrefix(base, f), body, tail, base, base, r);
  }

  /** With base 0, strtoul finds the base of '#' octal and '#' hex fields, and of decimals that print no
      zeros before their digits. */
  lemma PrintThenDetectStrToUl(u: nat, base: nat, width: int, precision: int, f: Flags, r: Conversion)
    requires u < TWO64
    requires (f.special && (base == 8 || base == 16)) || (base == 10 && ZeroCount(u, 10, width, precision, f) == 0)
    requires Converts(Field(u, base, width, precision, f), 0, r)
    ensures EndsDigits(Field(u, base, width, precision, f), r)
    ensures var m := Magnitude(u, f);
            if m > 0xFFFF_FFFF then r.value == 0xFFFF_FFFF && r.errno == ERANGE
            else r.errno == Quiet && r.value == if SignOf(u, f) == ['-'] && m > 0 then 0x1_0000_0000 - m else m
  {
    hide DigitsOf, Magnitude, Repeat, Converts, Value, Field, Digits, EndsDigits;
    var text, m := Field(u, base, width, precision, f), Magnitude(u, f);
    var lead, zeros, tail := FieldLayout(u, base, width, precision, f);
    var body := Repeat('0', zeros) + DigitsOf(m, base, f.large);
    ValueOfPrinted(zeros, m, base, f.large);
    NoRepeats();
    if base == 10 && m == 0 {
      OneDigit(10, f.large);
      OctalZero();
      assert body == "0";
      PartsRead(text, lead, VisibleSign(u, f), VisiblePrefix(10, f), body, tail, 8, 0, r);
    } else {
      if base == 10 { LeadingDigit(m, 10, f.large); }
      if base == 8 { assert body[0] == Repeat('0', zeros)[0]; }
      PartsRead(text, lead, VisibleSign(u, f), VisiblePrefix(base, f), body, tail, base, 0, r);
    }
  }

  lemma OctalZero()
    ensures Digits("0", 8) && Value("0", 8) == 0
  {
    assert "0"[..0] == [];
  }

  // ---------------------------------------------------------------- what is not a number

  /** EINVAL is for bases that are neither 0 nor from 2 to 36; such a call stores nothing. */
  lemma InvalidBases(s: string, base: int, r: Conversion)
    requires Converts(s, base, r)
    ensures r.errno == EINVAL <==> base < 0 || base == 1 || base > 36
    ensures r.errno == EINVAL ==> r.value == 0 && r.end == None
    ensures r.errno != EINVAL ==> r.end.Some? && r.end.value <= |s|
  {
    hide Value, SkipSpace, Digits;
  }

  /** A text that does not go on with a digit behind white space and sign converts nothing. */
  lemma NothingConverted(s: string, base: int, r: Conversion)
    requires (base == 0 || 2 <= base <= 36) && Converts(s, base, r)
    requires s == [] || (s[0] !in "0123456789+- " && !(9 <= s[0] as int <= 13) && s[0] as int != 160
                         && !('a' <= s[0] <= 'z') && !('A' <= s[0] <= 'Z'))
    ensures r == Conversion(0, Some(0), Quiet)
  {
    EmptyDigits(BaseOf(s, base));
    assert s[0..0] == [];
    assert LongestDigits(s, 0, 0, BaseOf(s, base));
    hide Value, LongestDigits;
    OutcomeIs(s, base, r, 0);
  }

  /** "0x" without a hexadecimal digit behind it is a zero that ends at the x. */
  lemma BareHexPrefix(s: string, x: char, rest: string, base: int, r: Conversion)
    requires (base == 0 || base == 16) && x in "xX" && s == ['0', x] + rest && Converts(s, base, r)
    requires rest == [] || rest[0] !in "0123456789abcdefABCDEF"
    ensures r == Conversion(0, Some(1), Quiet)
  {
    assert SkipSpace(s, 0) == 0 && HexPrefix(s, 0, base);
    assert At(s, 2) == At(rest, 0);
    EmptyDigits(16);
    assert s[2..2] == [];
    assert LongestDigits(s, 2, 2, 16);
    hide Value, LongestDigits;
    OutcomeIs(s, base, r, 2);
  }

  /** White space is tab, newline, vertical tab, form feed, return, space and the hard space; any amount
      of it may precede a number. */
  lemma WhiteSpaceSkipped(blank: string, s: string)
    requires forall i :: 0 <= i < |blank| ==> blank[i] as int in [9, 10, 11, 12, 13, 32, 160]
    requires s == [] || s[0] as int !in [9, 10, 11, 12, 13, 32, 160]
    ensures SkipSpace(blank + s, 0) == |blank|
  {
    assert At(blank + s, |blank|) == At(s, 0);
    SkipsExactly(blank + s, |blank|);
  }

  // ---------------------------------------------------------------- atoi

  /** A 32-bit pattern as a signed int. */
  function AsInt(w: nat): int { if w < 0x8000_0000 then w else w - TWO32 }

  /** kernel/perlwrap.c, atoi. */
  method Atoi(s: string) returns (v: int)
    ensures exists r :: Converts(s, 10, r) && v == AsInt(r.value)
  {
    hide Converts;
    var r := StrToUl(s, 10);
    v := AsInt(r.value);
  }

  /** A signed int printed in decimal, however padded and signed, comes back through atoi. */
  lemma PrintThenAtoi(v: int, width: int, precision: int, f: Flags, r: Conversion)
    requires -0x8000_0000 <= v < 0x8000_0000 && f.sign
    requires Converts(Field(if v < 0 then TWO64 + v else v, 10, width, precision, f), 10, r)
    ensures AsInt(r.value) == v
  {
    hide Converts, Field;
    PrintThenStrToUl(if v < 0 then TWO64 + v else v, 10, width, precision, f, r);
  }
}
