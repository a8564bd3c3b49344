/**
 Printing and parsing numbers: do_div, number and simple_strtoull of kernel/vsprintf.c.
 A 64-bit argument is its bit pattern, a natural below 2^64.
 */
module Numbers {

  const TWO32 := 0x1_0000_0000
  const TWO63 := 0x8000_0000_0000_0000
  const TWO64 := 0x1_0000_0000_0000_0000

  // ---------------------------------------------------------------- do_div

  lemma DivideInHalves(high: nat, low: nat, base: nat)
    requires 0 < base && low < TWO32
    ensures var n, upper := high * TWO32 + low, high % base;
            && (upper * TWO32 + low) / base < TWO32
            && n / base == high / base * TWO32 + (upper * TWO32 + low) / base
            && n % base == (upper * TWO32 + low) % base
  {
    var upper := high % base;
    var part := upper * TWO32 + low;
    var q, r := part / base, part % base;
    assert high == high / base * base + upper;
    calc {
      high * TWO32 + low;
      (high / base * base + upper) * TWO32 + low;
      high / base * base * TWO32 + part;
      { assert part == q * base + r; }
      (high / base * TWO32 + q) * base + r;
    }
    DivModUnique(high * TWO32 + low, base, high / base * TWO32 + q, r);
    assert part < base * TWO32;
    DivBound(part, base, TWO32);
  }

  lemma MulAtLeast(k: int, d: int)
    requires 0 < d
    ensures 1 <= k ==> d <= k * d
    ensures k <= -1 ==> k * d <= -d
  {
  }

  lemma MulOrder(q: int, k: int, d: int)
    requires 0 <= d
    ensures k <= q ==> k * d <= q * d
  {
  }

  lemma DivModIdentity(n: int, d: int)
    requires 0 < d
    ensures n == n / d * d + n % d && 0 <= n % d < d
  {
  }

  lemma DivModUnique(n: int, d: int, q: int, r: int)
    requires 0 < d && n == q * d + r && 0 <= r < d
    ensures n / d == q && n % d == r
  {
    DivModIdentity(n, d);
    var k := q - n / d;
    assert k * d == n % d - r;
    MulAtLeast(k, d);
  }

  lemma DivBound(n: nat, d: nat, k: nat)
    requires 0 < d && n < d * k
    ensures n / d < k
  {
    DivModIdentity(n, d);
    MulOrder(n / d, k, d);
  }

  lemma ZeroDivides(d: nat)
    requires 0 < d
    ensures 0 / d == 0 && 0 % d == 0
  {
  }

  /** The divl instruction on high:low; it traps unless the quotient fits 32 bits. */
  method Divl(high: nat, low: nat, base: nat) returns (quotient: nat, mod: nat)
    requires 0 < base && low < TWO32 && (high * TWO32 + low) / base < TWO32
    ensures quotient == (high * TWO32 + low) / base && mod == (high * TWO32 + low) % base
  {
    quotient := (high * TWO32 + low) / base;
    mod := (high * TWO32 + low) % base;
  }

  /** kernel/vsprintf.c, do_div: divide a 64-bit number by a small base with two 32-bit divisions. */
  method DoDiv(n: nat, base: nat) returns (quotient: nat, mod: nat)
    requires n < TWO64 && 2 <= base <= 36
    ensures quotient == n / base && mod == n % base
  {
    var low, high := n % TWO32, n / TWO32;
    DivideInHalves(high, low, base);
    var upper;
    upper, high := DivideHigh(high, base);
    low, mod := Divl(upper, low, base);
    quotient := high * TWO32 + low;
  }

  /** The upper half first, with an ordinary division where it is not zero. */
  method DivideHigh(h: nat, base: nat) returns (upper: nat, high: nat)
    requires 2 <= base
    ensures upper == h % base && high == h / base
  {
    upper, high := h, h;
    if high != 0 {
      upper := high % base;
      high := high / base;
    } else {
      ZeroDivides(base);
    }
  }

  // ---------------------------------------------------------------- digits

  function DigitChar(d: nat, large: bool): char
    requires d < 36
  {
    if d < 10 then ('0' as int + d) as char
    else if large then ('A' as int + d - 10) as char else ('a' as int + d - 10) as char
  }

  /** The digits of n, most significant first; zero has one digit. */
  function DigitsOf(n: nat, base: nat, large: bool): (s: string)
    requires 2 <= base <= 36
    ensures s != []
  {
    if n < base then [DigitChar(n, large)] else DigitsOf(n / base, base, large) + [DigitChar(n % base, large)]
  }

  predicate IsDigit(c: char) { '0' <= c <= '9' }

  predicate IsXDigit(c: char) { IsDigit(c) || 'a' <= c <= 'f' || 'A' <= c <= 'F' }

  function DigitValue(c: char): nat
    requires IsXDigit(c)
  {
    if IsDigit(c) then c as int - '0' as int
    else if 'a' <= c <= 'f' then c as int - 'a' as int + 10 else c as int - 'A' as int + 10
  }

  /** A character the parser takes in this base. */
  predicate InBase(c: char, base: nat) { IsXDigit(c) && DigitValue(c) < base }

  lemma DigitReadsBack(d: nat, base: nat, large: bool)
    requires d < base <= 16
    ensures InBase(DigitChar(d, large), base) && DigitValue(DigitChar(d, large)) == d
  {
  }

  /** The simple parsers take hexadecimal digits only, in whatever larger base they are asked for. */
  lemma DigitsTaken(c: char, base: nat)
    ensures base > 15 ==> (InBase(c, base) <==> c in "0123456789abcdefABCDEF")
    ensures base <= 10 ==> (InBase(c, base) <==> '0' <= c < ('0' as int + base) as char)
  {
  }

  ghost predicate AllInBase(s: string, base: nat) {
    forall i :: 0 <= i < |s| ==> InBase(s[i], base)
  }

  /** The number a digit string denotes, read behind what has been read so far. */
  function Read(acc: nat, s: string, base: nat): nat
    requires AllInBase(s, base)
    decreases |s|
  {
    if s == [] then acc else Read(acc * base + DigitValue(s[0]), s[1..], base)
  }

  lemma {:induction false} ReadConcat(acc: nat, a: string, b: string, base: nat)
    requires AllInBase(a, base) && AllInBase(b, base)
    ensures AllInBase(a + b, base) && Read(acc, a + b, base) == Read(Read(acc, a, base), b, base)
    decreases |a|
  {
    if a == [] {
      assert a + b == b;
    } else {
      assert (a + b)[0] == a[0] && (a + b)[1..] == a[1..] + b;
      ReadConcat(acc * base + DigitValue(a[0]), a[1..], b, base);
    }
  }

  lemma ReadOne(acc: nat, c: char, base: nat)
    requires InBase(c, base)
    ensures AllInBase([c], base) && Read(acc, [c], base) == acc * base + DigitValue(c)
  {
    assert [c][1..] == [];
  }

  /** Printed digits read back as the number printed. */
  lemma {:induction false} DigitsReadBack(n: nat, base: nat, large: bool)
    requires 2 <= base <= 16
    ensures AllInBase(DigitsOf(n, base, large), base) && Read(0, DigitsOf(n, base, large), base) == n
  {
    hide Read, DigitValue, InBase, AllInBase, DigitChar;
    if n < base {
      DigitReadsBack(n, base, large);
      ReadOne(0, DigitChar(n, large), base);
    } else {
      var last := [DigitChar(n % base, large)];
      DigitsReadBack(n / base, base, large);
      DigitReadsBack(n % base, base, large);
      ReadConcat(0, DigitsOf(n / base, base, large), last, base);
      ReadOne(n / base, last[0], base);
      DivModIdentity(n, base);
    }
  }

  function Repeat(c: char, n: int): (s: string)
    ensures |s| == if n < 0 then 0 else n
    ensures forall i :: 0 <= i < |s| ==> s[i] == c
  {
    if n <= 0 then [] else [c] + Repeat(c, n - 1)
  }

  lemma {:induction false} ZerosReadAsZero(n: int, base: nat)
    requires 2 <= base
    ensures AllInBase(Repeat('0', n), base) && Read(0, Repeat('0', n), base) == 0
  {
    if n > 0 {
      ZerosReadAsZero(n - 1, base);
      assert Repeat('0', n)[1..] == Repeat('0', n - 1);
    }
  }

  // ---------------------------------------------------------------- number

  datatype Flags = Flags(zeropad: bool, sign: bool, plus: bool, space: bool, left: bool, special: bool, large: bool)

  function SignOf(u: nat, f: Flags): string {
    if !f.sign then [] else if u >= TWO63 then ['-'] else if f.plus then ['+'] else if f.space then [' '] else []
  }

  function Magnitude(u: nat, f: Flags): nat
    requires u < TWO64
  {
    if f.sign && u >= TWO63 then TWO64 - u else u
  }

  function PrefixOf(base: nat, f: Flags): string {
    if !f.special then []
    else if base == 8 then ['0']
    else if base == 16 then ['0', if f.large then 'X' else 'x']
    else []
  }

  /** Sign and prefix, then at least `precision` digits, padded to `width` with spaces before or
      after, or with zeros in between. */
  function Assemble(head: string, digits: string, width: int, precision: int, left: bool, zeropad: bool): string {
    var zeros := Repeat('0', precision - |digits|);
    var pad := width - |head| - Max(|digits|, precision);
    if left then head + zeros + digits + Repeat(' ', pad)
    else if zeropad then head + Repeat('0', pad) + zeros + digits
    else Repeat(' ', pad) + head + zeros + digits
  }

  /** What number() writes. */
  function Field(u: nat, base: nat, width: int, precision: int, f: Flags): string
    requires u < TWO64 && 2 <= base <= 36
  {
    Assemble(SignOf(u, f) + PrefixOf(base, f), DigitsOf(Magnitude(u, f), base, f.large), width, precision, f.left,
      f.zeropad)
  }

  function Max(a: int, b: int): int { if a < b then b else a }

  /** Each field is as wide as asked for, or as its contents need. */
  lemma FieldLength(u: nat, base: nat, width: int, precision: int, f: Flags)
    requires u < TWO64 && 2 <= base <= 36
    ensures |Field(u, base, width, precision, f)|
            == Max(width, |SignOf(u, f)| + |PrefixOf(base, f)|
              + Max(|DigitsOf(Magnitude(u, f), base, f.large)|, precision))
  {
  }

  function Reverse(s: string): (r: string)
    ensures |r| == |s|
  {
    if s == [] then [] else Reverse(s[1..]) + [s[0]]
  }

  lemma {:induction false} ReverseSnoc(s: string, c: char)
    ensures Reverse(s + [c]) == [c] + Reverse(s)
  {
    if s == [] {
      assert s + [c] == [c] && [c][1..] == [];
    } else {
      assert (s + [c])[0] == s[0] && (s + [c])[1..] == s[1..] + [c];
      ReverseSnoc(s[1..], c);
    }
  }

  function Pow2(k: nat): nat { if k == 0 then 1 else 2 * Pow2(k - 1) }

  lemma Pow2Of64()
    ensures Pow2(64) == TWO64
  {
    assert Pow2(4) == 16;
    Pow2Sum(4, 4);
    Pow2Sum(8, 8);
    Pow2Sum(16, 16);
    Pow2Sum(32, 32);
  }

  lemma {:induction false} Pow2Sum(a: nat, b: nat)
    ensures Pow2(a + b) == Pow2(a) * Pow2(b)
  {
    if a > 0 {
      Pow2Sum(a - 1, b);
      assert Pow2(a + b) == 2 * Pow2(a - 1 + b);
    }
  }

  /** Each digit taken off halves the bound, so 64 bits give at most 64 digits. */
  lemma QuotientHalves(n: nat, base: nat, k: nat)
    requires 2 <= base && 0 < n < Pow2(k)
    ensures 0 < k && n / base < Pow2(k - 1)
  {
    DivModIdentity(n, base);
    MulOrder(base, 2, 1);
    var q := n / base;
    MulOrder(base, 2, q + 1);
    assert q * 2 <= q * base;
  }

  /** The loop `while (size-- > 0) *str++ = c`. */
  method Pad(out: string, c: char, size: int) returns (out': string, left: int)
    ensures out' == out + Repeat(c, size) && left == (if size > 0 then 0 else size) - 1
  {
    out', left := out, size;
    while left > 0
      invariant left <= size && (size <= 0 ==> left == size) && (size > 0 ==> 0 <= left)
      invariant out' == out + Repeat(c, if size > 0 then size - left else 0)
    {
      out' := out' + [c];
      left := left - 1;
      RepeatSnoc(c, size - left - 1);
    }
    left := left - 1;
  }

  lemma {:induction false} RepeatSnoc(c: char, n: nat)
    ensures Repeat(c, n + 1) == Repeat(c, n) + [c]
  {
    if n > 0 { RepeatSnoc(c, n - 1); }
  }

  function Front(n: nat, base: nat, large: bool): string
    requires 2 <= base <= 36
  {
    if n == 0 then [] else DigitsOf(n, base, large)
  }

  lemma FrontStep(n: nat, base: nat, large: bool)
    requires 2 <= base <= 36 && 0 < n
    ensures n % base < 36 && Front(n, base, large) == Front(n / base, base, large) + [DigitChar(n % base, large)]
  {
    DivModIdentity(n, base);
    if n < base {
      DivModUnique(n, base, 0, n);
    } else {
      MulOrder(0, n / base, base);
    }
  }

  /** number()'s conversion loop: the digits of num, least significant first. */
  method TakeDigits(num: nat, base: nat, large: bool) returns (tmp: array<char>, i: nat)
    requires num < TWO64 && 2 <= base <= 36
    ensures fresh(tmp) && tmp.Length == 66 && i <= 64
    ensures Reverse(tmp[..i]) == DigitsOf(num, base, large)
  {
    hide DigitsOf, DigitChar, Reverse, Pow2;
    tmp := new char[66](_ => ' ');
    i := 0;
    if num == 0 {
      tmp[0] := '0';
      i := 1;
      OneDigit(base, large);
      assert tmp[..1] == ['0'];
    } else {
      Pow2Of64();
      NothingTaken(num, base, large);
      assert tmp[..0] == [];
      var n: nat := num;
      while n != 0
        invariant i <= 64 && n < Pow2(64 - i) && n < TWO64
        invariant Front(num, base, large) == Front(n, base, large) + Reverse(tmp[..i])
        decreases n
      {
        TakeStep(num, n, base, large, tmp[..i]);
        QuotientHalves(n, base, 64 - i);
        SmallerQuotient(n, base);
        var mod;
        n, mod := DoDiv(n, base);
        tmp[i] := DigitChar(mod, large);
        assert tmp[..i + 1] == tmp[..i] + [tmp[i]];
        i := i + 1;
      }
    }
  }

  lemma NothingTaken(num: nat, base: nat, large: bool)
    requires 2 <= base <= 36
    ensures Front(num, base, large) == Front(num, base, large) + Reverse([])
  {
  }

  lemma TakeStep(num: nat, n: nat, base: nat, large: bool, done: string)
    requires 2 <= base <= 36 && 0 < n && Front(num, base, large) == Front(n, base, large) + Reverse(done)
    ensures n % base < 36
    ensures Front(num, base, large) == Front(n / base, base, large) + Reverse(done + [DigitChar(n % base, large)])
  {
    hide DigitsOf, Front, DigitChar, Reverse;
    FrontStep(n, base, large);
    ReverseSnoc(done, DigitChar(n % base, large));
  }

  lemma SmallerQuotient(n: nat, base: nat)
    requires 2 <= base && 0 < n
    ensures n / base < n
  {
    DivModIdentity(n, base);
    MulOrder(base, 2, n / base + 1);
  }

  lemma OneDigit(base: nat, large: bool)
    requires 2 <= base <= 36
    ensures DigitsOf(0, base, large) == ['0'] && Reverse(['0']) == ['0']
  {
    assert ['0'][1..] == [];
  }

  /** number()'s treatment of the sign and what sign and prefix leave of the width. */
  method SplitSign(u: nat, base: int, width: int, f: Flags) returns (sign: string, num: nat, size: int)
    requires u < TWO64 && 2 <= base <= 36
    ensures sign == SignOf(u, f) && num == Magnitude(u, f) && num < TWO64
    ensures size == width - |sign| - |PrefixOf(base, f)|
  {
    num, size, sign := u, width, [];
    if f.sign {
      if num >= TWO63 {
        sign := ['-'];
        num := TWO64 - num;
        size := size - 1;
      } else if f.plus {
        sign := ['+'];
        size := size - 1;
      } else if f.space {
        sign := [' '];
        size := size - 1;
      }
    }
    if f.special {
      if base == 16 {
        size := size - 2;
      } else if base == 8 {
        size := size - 1;
      }
    }
  }

  /** number()'s output, once sign, prefix, digits and the remaining width are known. */
  method WriteField(head: string, tmp: array<char>, i: nat, room: int, prec: int, left: bool, zeropad: bool)
      returns (out: string)
    requires i <= tmp.Length && !(left && zeropad)
    ensures out == Assemble(head, Reverse(tmp[..i]), room + |head|, prec, left, zeropad)
  {
    hide Repeat, Reverse, Assemble;
    var size, precision := room, prec;
    if i > precision {
      precision := i;
    }
    size := size - precision;
    ghost var pad := size;
    out := [];
    NoRepeats();
    assert [] + Repeat(' ', size) == Repeat(' ', size);
    if !zeropad && !left {
      out, size := Pad(out, ' ', size);
    }
    out := out + head;
    if !left {
      out, size := Pad(out, if zeropad then '0' else ' ', size);
    }
    ghost var rest, before := 0, out;
    assert before == FrontPart(head, pad, left, zeropad) by { NothingMore(head); }
    out, rest := Pad(out, '0', precision - i);
    out := PutReversed(out, tmp, i);
    out, size := Pad(out, ' ', size);
    Assembled(head, Reverse(tmp[..i]), room + |head|, prec, left, zeropad);
    if !left { NothingMore(before + Repeat('0', precision - i) + Reverse(tmp[..i])); }
  }

  function FrontPart(head: string, pad: int, left: bool, zeropad: bool): string {
    if left then head else if zeropad then head + Repeat('0', pad) else Repeat(' ', pad) + head
  }

  lemma NothingMore(s: string)
    ensures [] + s == s && s + [] == s
  {
  }

  lemma Assembled(head: string, digits: string, width: int, precision: int, left: bool, zeropad: bool)
    ensures var pad := width - |head| - Max(|digits|, precision);
            Assemble(head, digits, width, precision, left, zeropad)
            == FrontPart(head, pad, left, zeropad) + Repeat('0', Max(|digits|, precision) - |digits|) + digits
               + (if left then Repeat(' ', pad) else [])
  {
    NoRepeats();
    hide Repeat;
    assert Repeat('0', Max(|digits|, precision) - |digits|) == Repeat('0', precision - |digits|);
  }

  lemma NoRepeats()
    ensures forall c, n :: n <= 0 ==> Repeat(c, n) == []
  {
  }

  /** kernel/vsprintf.c, number.  It returns a null pointer for a base it cannot print. */
  method Number(u: nat, base: int, width: int, precision: int, flags: Flags) returns (ok: bool, out: string)
    requires u < TWO64
    ensures ok <==> 2 <= base <= 36
    ensures ok ==> out == Field(u, base, width, precision, flags)
  {
    hide DigitsOf, Reverse, Assemble, Field, SignOf, Magnitude;
    var f := if flags.left then flags.(zeropad := false) else flags;
    if base < 2 || base > 36 {
      return false, [];
    }
    var sign, num, size := SplitSign(u, base, width, f);
    var tmp, i := TakeDigits(num, base, f.large);
    var head := sign;
    if f.special {
      if base == 8 {
        head := head + ['0'];
      } else if base == 16 {
        head := head + ['0', if f.large then 'X' else 'x'];
      }
    }
    out := WriteField(head, tmp, i, size, precision, f.left, f.zeropad);
    ok := true;
    assert head == SignOf(u, f) + PrefixOf(base, f);
    LeftDropsZeropad(u, base, width, precision, flags);
  }

  /** Left justification makes the zero flag irrelevant. */
  lemma LeftDropsZeropad(u: nat, base: nat, width: int, precision: int, f: Flags)
    requires u < TWO64 && 2 <= base <= 36
    ensures var g := if f.left then f.(zeropad := false) else f;
            Assemble(SignOf(u, g) + PrefixOf(base, g), DigitsOf(Magnitude(u, g), base, g.large), width, precision,
              g.left, g.zeropad)
            == Field(u, base, width, precision, f)
  {
    hide DigitsOf, Assemble, SignOf, PrefixOf, Magnitude;
    var g := f.(zeropad := false);
    SameHead(u, base, f, g);
    AssembleLeft(SignOf(u, g) + PrefixOf(base, g), DigitsOf(Magnitude(u, g), base, g.large), width, precision,
      f.zeropad);
  }

  lemma SameHead(u: nat, base: nat, f: Flags, g: Flags)
    requires u < TWO64 && g == f.(zeropad := false)
    ensures SignOf(u, g) == SignOf(u, f) && PrefixOf(base, g) == PrefixOf(base, f) && Magnitude(u, g) == Magnitude(u, f)
  {
  }

  lemma AssembleLeft(head: string, digits: string, width: int, precision: int, zeropad: bool)
    ensures Assemble(head, digits, width, precision, true, zeropad)
            == Assemble(head, digits, width, precision, true, false)
  {
  }

  /** The loop `while (i-- > 0) *str++ = tmp[i]`. */
  method PutReversed(out: string, tmp: array<char>, n: nat) returns (out': string)
    requires n <= tmp.Length
    ensures out' == out + Reverse(tmp[..n])
  {
    out' := out;
    var i := n;
    while i > 0
      invariant 0 <= i <= n && out' + Reverse(tmp[..i]) == out + Reverse(tmp[..n])
    {
      i := i - 1;
      assert tmp[..i + 1] == tmp[..i] + [tmp[i]];
      ReverseSnoc(tmp[..i], tmp[i]);
      assert out' + ([tmp[i]] + Reverse(tmp[..i])) == out' + [tmp[i]] + Reverse(tmp[..i]);
      out' := out' + [tmp[i]];
    }
  }

  // ---------------------------------------------------------------- simple_strtoul and its variants

  /** The character a C string holds at i; its end reads as NUL. */
  function At(s: string, i: nat): char { if i < |s| then s[i] else 0 as char }

  datatype Start = Start(at: nat, base: nat)

  /** Where the digits begin and in which base, for a caller's base (0 asks for detection). */
  function Detect(s: string, base: nat): (r: Start)
    ensures r.at <= |s|
  {
    if base != 0 then Start(0, base)
    else if At(s, 0) != '0' then Start(0, 10)
    else if At(s, 1) == 'x' && IsXDigit(At(s, 2)) then Start(2, 16)
    else Start(1, 8)
  }

  /** `end` closes the longest run of digits from `start` on. */
  ghost predicate LongestRun(s: string, start: nat, end: nat, base: nat) {
    && start <= end <= |s|
    && AllInBase(s[start..end], base)
    && !InBase(At(s, end), base)
  }

  /** The value and end of a conversion into a machine word of `modulus` values. */
  ghost predicate Parses(s: string, base: nat, modulus: nat, value: nat, end: nat)
    requires 0 < modulus
  {
    var d := Detect(s, base);
    LongestRun(s, d.at, end, d.base) && value == Read(0, s[d.at..end], d.base) % modulus
  }

  lemma ModMulAdd(a: nat, b: nat, c: nat, m: nat)
    requires 0 < m
    ensures (a % m * b + c) % m == (a * b + c) % m
  {
    DivModIdentity(a, m);
    var k := a / m * b;
    calc {
      a * b + c;
      { assert a * b == (a / m * m + a % m) * b; }
      a / m * m * b + a % m * b + c;
      { assert a / m * m * b == k * m; }
      k * m + (a % m * b + c);
    }
    ModShift(k, a % m * b + c, m);
  }

  lemma ModShift(k: int, x: int, m: nat)
    requires 0 < m
    ensures (k * m + x) % m == x % m
  {
    DivModIdentity(x, m);
    assert k * m + x == (k + x / m) * m + x % m;
    DivModUnique(k * m + x, m, k + x / m, x % m);
  }

  lemma ReadSnoc(s: string, start: nat, end: nat, base: nat)
    requires start <= end < |s| && AllInBase(s[start..end], base) && InBase(s[end], base)
    ensures AllInBase(s[start..end + 1], base)
    ensures Read(0, s[start..end + 1], base) == Read(0, s[start..end], base) * base + DigitValue(s[end])
  {
    hide DigitValue, IsXDigit, Read;
    assert s[start..end + 1] == s[start..end] + [s[end]];
    ReadOne(Read(0, s[start..end], base), s[end], base);
    ReadConcat(0, s[start..end], [s[end]], base);
  }

  lemma NoDigits(base: nat)
    ensures AllInBase([], base) && Read(0, [], base) == 0
  {
  }

  /** kernel/vsprintf.c, simple_strtoul (modulus 2^32) and simple_strtoull (modulus 2^64). */
  method SimpleStrToU(s: string, base: nat, modulus: nat) returns (value: nat, end: nat)
    requires 0 < modulus
    ensures Parses(s, base, modulus, value, end) && value < modulus
  {
    hide AllInBase, Read;
    var cp, b := 0, base;
    if base == 0 {
      b := 10;
      if At(s, 0) == '0' {
        b := 8;
        cp := cp + 1;
        if At(s, cp) == 'x' && IsXDigit(At(s, cp + 1)) {
          cp := cp + 1;
          b := 16;
        }
      }
    }
    ghost var start := cp;
    assert Detect(s, base) == Start(start, b);
    var result := 0;
    NoDigits(b);
    assert s[start..cp] == [];
    while IsXDigit(At(s, cp)) && DigitValue(At(s, cp)) < b
      invariant start <= cp <= |s| && AllInBase(s[start..cp], b)
      invariant 0 <= result < modulus && result == Read(0, s[start..cp], b) % modulus
      decreases |s| - cp
    {
      ReadSnoc(s, start, cp, b);
      ModMulAdd(Read(0, s[start..cp], b), b, DigitValue(s[cp]), modulus);
      result := (result * b + DigitValue(s[cp])) % modulus;
      cp := cp + 1;
    }
    return result, cp;
  }

  function Negated(x: nat, modulus: nat): nat
    requires 0 < modulus
  {
    (modulus - x % modulus) % modulus
  }

  ghost predicate ParsesSigned(s: string, base: nat, modulus: nat, value: nat, end: nat)
    requires 0 < modulus
  {
    if At(s, 0) == '-'
    then end >= 1 && exists v :: Parses(s[1..], base, modulus, v, end - 1) && value == Negated(v, modulus)
    else Parses(s, base, modulus, value, end)
  }

  /** simple_strtol and simple_strtoll; the result is the bit pattern of the signed word. */
  method SimpleStrToS(s: string, base: nat, modulus: nat) returns (value: nat, end: nat)
    requires 0 < modulus
    ensures ParsesSigned(s, base, modulus, value, end)
  {
    hide Parses;
    if At(s, 0) == '-' {
      value, end := SimpleStrToU(s[1..], base, modulus);
      value, end := Negated(value, modulus), end + 1;
    } else {
      value, end := SimpleStrToU(s, base, modulus);
    }
  }

  // ---------------------------------------------------------------- printing then parsing

  lemma LongestRunUnique(s: string, start: nat, e1: nat, e2: nat, base: nat)
    requires LongestRun(s, start, e1, base) && LongestRun(s, start, e2, base)
    ensures e1 == e2
  {
    hide InBase;
    RunInBase(s, start, e1, base);
    RunInBase(s, start, e2, base);
  }

  lemma RunInBase(s: string, start: nat, end: nat, base: nat)
    requires start <= end <= |s| && AllInBase(s[start..end], base)
    ensures forall i :: start <= i < end ==> InBase(At(s, i), base)
  {
    forall i | start <= i < end ensures InBase(At(s, i), base) {
      assert s[start..end][i - start] == s[i];
    }
  }

  /** A parse of known shape has a known result. */
  lemma ParseOf(s: string, base: nat, modulus: nat, value: nat, end: nat, digits: string, rest: string)
    requires 0 < modulus && Parses(s, base, modulus, value, end)
    requires s[Detect(s, base).at..] == digits + rest
    requires AllInBase(digits, Detect(s, base).base) && !InBase(At(rest, 0), Detect(s, base).base)
    ensures end == Detect(s, base).at + |digits| && value == Read(0, digits, Detect(s, base).base) % modulus
  {
    hide InBase, Read, AllInBase, Detect;
    var d := Detect(s, base);
    var stop := d.at + |digits|;
    assert s[d.at..stop] == s[d.at..][..|digits|] == digits;
    assert At(s, stop) == At(rest, 0) by {
      if stop < |s| { assert s[stop] == s[d.at..][|digits|] == rest[0]; }
    }
    LongestRunUnique(s, d.at, end, stop, d.base);
  }

  predicate LeadingSpaces(u: nat, base: nat, width: int, precision: int, f: Flags)
    requires u < TWO64 && 2 <= base <= 36
  {
    !f.left && !f.zeropad
    && width > |SignOf(u, f) + PrefixOf(base, f)| + Max(|DigitsOf(Magnitude(u, f), base, f.large)|, precision)
  }

  predicate Blank(s: string) { forall i :: 0 <= i < |s| ==> s[i] == ' ' }

  /** The zeros between the head of a field and its digits. */
  function ZeroCount(u: nat, base: nat, width: int, precision: int, f: Flags): nat
    requires u < TWO64 && 2 <= base <= 36
  {
    var digits := |DigitsOf(Magnitude(u, f), base, f.large)|;
    Max(0, precision - digits)
    + if f.zeropad && !f.left then Max(0, width - |SignOf(u, f) + PrefixOf(base, f)| - Max(digits, precision)) else 0
  }

  /** Without leading spaces a field is its head, zeros, the digits, and spaces. */
  lemma FieldShape(u: nat, base: nat, width: int, precision: int, f: Flags) returns (tail: string)
    requires u < TWO64 && 2 <= base <= 36 && !LeadingSpaces(u, base, width, precision, f)
    ensures Blank(tail)
    ensures Field(u, base, width, precision, f) == SignOf(u, f) + PrefixOf(base, f)
            + (Repeat('0', ZeroCount(u, base, width, precision, f)) + DigitsOf(Magnitude(u, f), base, f.large)) + tail
  {
    hide DigitsOf, SignOf, PrefixOf, Magnitude;
    var head := SignOf(u, f) + PrefixOf(base, f);
    var digits := DigitsOf(Magnitude(u, f), base, f.large);
    var some, pad := Max(0, precision - |digits|), Max(0, width - |head| - Max(|digits|, precision));
    var zeros := ZeroCount(u, base, width, precision, f);
    tail := [];
    if f.left {
      tail := Repeat(' ', pad);
    } else if f.zeropad {
      RepeatSum('0', pad, some);
    }
    NoRepeats();
    AssembledShape(head, digits, width, precision, f.left, f.zeropad, zeros, tail);
  }

  lemma AssembledShape(head: string, digits: string, width: int, precision: int, left: bool, zeropad: bool,
      zeros: nat, tail: string)
    requires var pad := width - |head| - Max(|digits|, precision);
             && (left || zeropad || pad <= 0)
             && tail == (if left then Repeat(' ', pad) else [])
             && Repeat('0', zeros)
                == (if zeropad && !left then Repeat('0', pad) else []) + Repeat('0', precision - |digits|)
    ensures Assemble(head, digits, width, precision, left, zeropad) == head + (Repeat('0', zeros) + digits) + tail
  {
    var pad := width - |head| - Max(|digits|, precision);
    var some := Repeat('0', precision - |digits|);
    NoRepeats();
    hide Repeat, Max;
    if left {
      Regroup(head, some, digits, tail);
    } else if zeropad {
      Regroup(head, Repeat('0', pad) + some, digits, []);
      Regroup(head, Repeat('0', pad), some, digits);
    } else {
      Regroup([], head, some, digits);
      Regroup(head, some, digits, []);
    }
  }

  lemma Regroup(a: string, b: string, c: string, d: string)
    ensures a + (b + c) + d == a + b + c + d
    ensures a + (b + c) == a + b + c
    ensures [] + a == a && a + [] == a
    ensures a + (b + c) + [] == a + b + c
  {
  }

  lemma {:induction false} RepeatSum(c: char, a: nat, b: nat)
    ensures Repeat(c, a) + Repeat(c, b) == Repeat(c, a + b)
  {
    if a > 0 {
      RepeatSum(c, a - 1, b);
      assert Repeat(c, a) + Repeat(c, b) == [c] + (Repeat(c, a - 1) + Repeat(c, b));
    }
  }

  lemma ZerosThenDigits(zeros: nat, n: nat, base: nat, large: bool)
    requires 2 <= base <= 16
    ensures var s := Repeat('0', zeros) + DigitsOf(n, base, large); AllInBase(s, base) && Read(0, s, base) == n
  {
    hide Read, AllInBase, DigitsOf, Repeat;
    ZerosReadAsZero(zeros, base);
    DigitsReadBack(n, base, large);
    ReadConcat(0, Repeat('0', zeros), DigitsOf(n, base, large), base);
  }

  /** A field, part by part: spaces, sign, prefix, zeros, digits, spaces.  The flags and counts fix
      every part, so this describes number()'s output completely. */
  lemma FieldParts(u: nat, base: nat, width: int, precision: int, f: Flags)
      returns (before: nat, sign: string, prefix: string, zeros: nat, digits: string, after: nat)
    requires u < TWO64 && 2 <= base <= 36
    ensures Field(u, base, width, precision, f)
            == Repeat(' ', before) + (sign + prefix) + (Repeat('0', zeros) + digits) + Repeat(' ', after)
    ensures sign == if !f.sign then "" else if u >= 0x8000_0000_0000_0000 then "-" else if f.plus then "+"
                    else if f.space then " " else ""
    ensures prefix == if !f.special then "" else if base == 8 then "0" else if base != 16 then ""
                      else if f.large then "0X" else "0x"
    ensures digits == DigitsOf(if f.sign && u >= 0x8000_0000_0000_0000 then 0x1_0000_0000_0000_0000 - u else u,
                               base, f.large)
    ensures before > 0 ==> !f.left && !f.zeropad
    ensures after > 0 ==> f.left
    ensures |digits| + zeros >= precision
    ensures zeros > 0 && |digits| + zeros > precision ==> f.zeropad && !f.left
    ensures |Field(u, base, width, precision, f)|
            == (if width > |sign + prefix| + zeros + |digits| then width else |sign + prefix| + zeros + |digits|)
  {
    hide DigitsOf, Repeat;
    sign, prefix := SignOf(u, f), PrefixOf(base, f);
    digits := DigitsOf(Magnitude(u, f), base, f.large);
    before, zeros, after := PadParts(sign + prefix, digits, width, precision, f.left, f.zeropad);
  }

  lemma PadParts(head: string, digits: string, width: int, precision: int, left: bool, zeropad: bool)
      returns (before: nat, zeros: nat, after: nat)
    ensures var t := Assemble(head, digits, width, precision, left, zeropad);
            && t == Repeat(' ', before) + head + (Repeat('0', zeros) + digits) + Repeat(' ', after)
            && |t| == Max(width, |head| + zeros + |digits|)
    ensures before > 0 ==> !left && !zeropad
    ensures after > 0 ==> left
    ensures |digits| + zeros >= precision
    ensures zeros > 0 && |digits| + zeros > precision ==> zeropad && !left
  {
    var some, pad := Max(0, precision - |digits|), Max(0, width - |head| - Max(|digits|, precision));
    NoRepeats();
    RepeatSum('0', pad, some);
    hide Repeat;
    before, zeros, after := 0, some, 0;
    var z := Repeat('0', some);
    if left {
      after := pad;
      Regroup(head, z, digits, Repeat(' ', pad));
      Regroup(head, head, head, head);
    } else if zeropad {
      zeros := some + pad;
      Regroup(head, Repeat('0', pad) + z, digits, []);
      Regroup(head, Repeat('0', pad), z, digits);
      Regroup(head, head, head, head);
    } else {
      before := pad;
      Regroup(Repeat(' ', pad), head, z, digits);
      Regroup(Repeat(' ', pad) + head, z, digits, []);
    }
  }

  /** No letter of the other case. */
  ghost predicate OneCase(s: string, large: bool) {
    forall i :: 0 <= i < |s| ==> if large then !('a' <= s[i] <= 'z') else !('A' <= s[i] <= 'Z')
  }

  lemma OneCaseConcat(a: string, b: string, large: bool)
    requires OneCase(a, large) && OneCase(b, large)
    ensures OneCase(a + b, large)
  {
  }

  /** Prefix and digits of a field are of one case. */
  lemma FieldCase(u: nat, base: nat, width: int, precision: int, f: Flags)
    requires u < TWO64 && 2 <= base <= 36
    ensures OneCase(Field(u, base, width, precision, f), f.large)
  {
    var before, sign, prefix, zeros, digits, after := FieldParts(u, base, width, precision, f);
    hide DigitsOf, Repeat, Field, OneCase;
    var large := f.large;
    RepeatCase(before, zeros, after, large);
    HeadCase(sign, prefix, f);
    DigitCase(if f.sign && u >= TWO63 then TWO64 - u else u, base, large);
    OneCaseConcat(Repeat(' ', before), sign + prefix, large);
    OneCaseConcat(Repeat('0', zeros), digits, large);
    OneCaseConcat(Repeat(' ', before) + (sign + prefix), Repeat('0', zeros) + digits, large);
    OneCaseConcat(Repeat(' ', before) + (sign + prefix) + (Repeat('0', zeros) + digits), Repeat(' ', after), large);
  }

  lemma RepeatCase(before: nat, zeros: nat, after: nat, large: bool)
    ensures OneCase(Repeat(' ', before), large) && OneCase(Repeat('0', zeros), large)
    ensures OneCase(Repeat(' ', after), large)
  {
  }

  lemma HeadCase(sign: string, prefix: string, f: Flags)
    requires sign in ["", "-", "+", " "] && prefix in ["", "0", if f.large then "0X" else "0x"]
    ensures OneCase(sign + prefix, f.large)
  {
  }

  lemma {:induction false} DigitCase(n: nat, base: nat, large: bool)
    requires 2 <= base <= 36
    ensures OneCase(DigitsOf(n, base, large), large)
  {
    DivModIdentity(n, base);
    if n >= base {
      SmallerQuotient(n, base);
      DigitCase(n / base, base, large);
      OneCaseConcat(DigitsOf(n / base, base, large), [DigitChar(n % base, large)], large);
    }
  }

  /** "0x" is a hex prefix only before a hexadecimal digit; otherwise the zero is an octal one and the x
      ends it. */
  lemma BareHexPrefix(s: string, rest: string, modulus: nat, value: nat, end: nat)
    requires 0 < modulus && s == ['0', 'x'] + rest && (rest == [] || rest[0] !in "0123456789abcdefABCDEF")
    requires Parses(s, 0, modulus, value, end)
    ensures value == 0 && end == 1
  {
    assert At(s, 2) == At(rest, 0);
    assert Detect(s, 0) == Start(1, 8);
    assert s[1..] == [] + (['x'] + rest);
    NoDigits(8);
    hide Parses;
    assert 0 % modulus == 0 by { DivModUnique(0, modulus, 0, 0); }
    ParseOf(s, 0, modulus, value, end, [], ['x'] + rest);
  }

  /** A text whose remainder after detection is printed digits gives back the number printed. */
  lemma DigitsParse(text: string, base: nat, value: nat, end: nat, zeros: nat, n: nat, large: bool, tail: string)
    requires n < TWO64 && Blank(tail) && Parses(text, base, TWO64, value, end)
    requires 2 <= Detect(text, base).base <= 16
    requires text[Detect(text, base).at..] == Repeat('0', zeros) + DigitsOf(n, Detect(text, base).base, large) + tail
    ensures value == n && end + |tail| == |text|
  {
    hide Parses, Detect, DigitsOf, Repeat, Read, AllInBase;
    var b := Detect(text, base).base;
    ZerosThenDigits(zeros, n, b, large);
    BlankEnds(tail, b);
    ParseOf(text, base, TWO64, value, end, Repeat('0', zeros) + DigitsOf(n, b, large), tail);
    assert n % TWO64 == n;
  }

  lemma BlankEnds(tail: string, base: nat)
    requires Blank(tail)
    ensures !InBase(At(tail, 0), base)
  {
  }

  lemma SpacesFirst(u: nat, base: nat, width: int, precision: int, f: Flags)
    requires u < TWO64 && 2 <= base <= 36 && LeadingSpaces(u, base, width, precision, f)
    ensures At(Field(u, base, width, precision, f), 0) == ' '
  {
    hide DigitsOf, Repeat, SignOf, PrefixOf, Magnitude;
  }

  lemma NothingToParse(text: string, base: nat, value: nat, end: nat)
    requires 0 < base && Parses(text, base, TWO64, value, end) && !InBase(At(text, 0), base)
    ensures value == 0
  {
    hide Parses, InBase;
    NoDigits(base);
    assert text[0..] == [] + text;
    ParseOf(text, base, TWO64, value, end, [], text);
  }

  lemma StopsAtX(text: string, x: char, rest: string, base: nat, value: nat, end: nat)
    requires 0 < base && text == ['0', x] + rest && x in ['x', 'X'] && Parses(text, base, TWO64, value, end)
    ensures value == 0
  {
    hide Parses, Read;
    assert text[0..] == ['0'] + ([x] + rest);
    ReadOne(0, '0', base);
    ParseOf(text, base, TWO64, value, end, ['0'], [x] + rest);
  }

  /** Parsing prefix, zeros, digits and spaces in the digits' base gives the number, or zero where the
      prefix "0x" stops the parser. */
  lemma PrefixedParse(text: string, base: nat, value: nat, end: nat, f: Flags, zeros: nat, n: nat, tail: string)
    requires n < TWO64 && 2 <= base <= 16 && Blank(tail) && Parses(text, base, TWO64, value, end)
    requires text == PrefixOf(base, f) + (Repeat('0', zeros) + DigitsOf(n, base, f.large)) + tail
    ensures value == if f.special && base == 16 then 0 else n
  {
    hide Parses, Repeat, DigitsOf;
    var digits := DigitsOf(n, base, f.large);
    if f.special && base == 16 {
      var x := if f.large then 'X' else 'x';
      assert text == ['0', x] + (Repeat('0', zeros) + digits + tail);
      StopsAtX(text, x, Repeat('0', zeros) + digits + tail, base, value, end);
    } else if f.special && base == 8 {
      OneMoreZero(zeros, digits, tail);
      assert text[0..] == text;
      DigitsParse(text, base, value, end, zeros + 1, n, f.large, tail);
    } else {
      assert PrefixOf(base, f) == [];
      assert text[0..] == Repeat('0', zeros) + digits + tail;
      DigitsParse(text, base, value, end, zeros, n, f.large, tail);
    }
  }

  /** Printing an unsigned number and parsing it in the same base is the identity, except that
      leading spaces and the prefix "0x" stop the parser before the digits. */
  lemma PrintThenParseIff(u: nat, base: nat, width: int, precision: int, f: Flags, value: nat, end: nat)
    requires u < TWO64 && 2 <= base <= 16 && !f.sign
    requires Parses(Field(u, base, width, precision, f), base, TWO64, value, end)
    ensures value == u <==> u == 0 || (!LeadingSpaces(u, base, width, precision, f) && !(f.special && base == 16))
  {
    hide Parses, LeadingSpaces, Field, Repeat, DigitsOf, ZeroCount, PrefixOf;
    var text := Field(u, base, width, precision, f);
    if LeadingSpaces(u, base, width, precision, f) {
      SpacesFirst(u, base, width, precision, f);
      NothingToParse(text, base, value, end);
    } else {
      var tail := FieldShape(u, base, width, precision, f);
      assert SignOf(u, f) + PrefixOf(base, f) == PrefixOf(base, f);
      PrefixedParse(text, base, value, end, f, ZeroCount(u, base, width, precision, f), u, tail);
    }
  }

  /** The shortest failure: "  5" reads as nothing. */
  lemma SpacesWitness(f: Flags, value: nat, end: nat)
    requires f == Flags(false, false, false, false, false, false, false)
    requires Parses(Field(5, 10, 3, -1, f), 10, TWO64, value, end)
    ensures Field(5, 10, 3, -1, f) == "  5" && value == 0
  {
    hide Parses;
    assert DigitsOf(5, 10, false) == "5";
    assert Repeat(' ', 2) == "  " && Repeat('0', -2) == [];
    SpacesFirst(5, 10, 3, -1, f);
    NothingToParse(Field(5, 10, 3, -1, f), 10, value, end);
  }

  lemma OneMoreZero(zeros: nat, digits: string, tail: string)
    ensures ['0'] + (Repeat('0', zeros) + digits) + tail == Repeat('0', zeros + 1) + digits + tail
  {
    assert Repeat('0', zeros + 1) == ['0'] + Repeat('0', zeros);
  }

  /** With base 0 the parser finds the base itself from the prefix number() writes for '#', unless
      spaces precede it or it is the upper-case "0X". */
  lemma PrintThenDetectIff(u: nat, base: nat, width: int, precision: int, f: Flags, value: nat, end: nat)
    requires u < TWO64 && !f.sign && f.special && (base == 8 || base == 16)
    requires Parses(Field(u, base, width, precision, f), 0, TWO64, value, end)
    ensures value == u <==> u == 0 || (!LeadingSpaces(u, base, width, precision, f) && !(base == 16 && f.large))
  {
    hide Parses, LeadingSpaces, Field, Repeat, DigitsOf, ZeroCount, IsXDigit, InBase, Read;
    var text := Field(u, base, width, precision, f);
    if LeadingSpaces(u, base, width, precision, f) {
      SpacesFirst(u, base, width, precision, f);
      NoDigits(10);
      assert text[0..] == [] + text;
      SpaceInNoBase(10);
      ParseOf(text, 0, TWO64, value, end, [], text);
    } else {
      var tail := FieldShape(u, base, width, precision, f);
      var body := Repeat('0', ZeroCount(u, base, width, precision, f)) + DigitsOf(u, base, f.large);
      assert SignOf(u, f) + PrefixOf(base, f) == PrefixOf(base, f);
      if base == 16 && f.large {
        UpperHexUnread(text, body + tail, value, end) by { Regroup(PrefixOf(base, f), body, tail, []); }
      } else {
        PrefixDetected(text, base, value, end, ZeroCount(u, base, width, precision, f), u, tail);
      }
    }
  }

  lemma UpperHexUnread(text: string, rest: string, value: nat, end: nat)
    requires text == ['0', 'X'] + rest && Parses(text, 0, TWO64, value, end)
    ensures value == 0
  {
    hide Parses;
    assert Detect(text, 0) == Start(1, 8);
    assert text[1..] == [] + (['X'] + rest);
    NoDigits(8);
    ParseOf(text, 0, TWO64, value, end, [], ['X'] + rest);
  }

  lemma PrefixDetected(text: string, base: nat, value: nat, end: nat, zeros: nat, u: nat, tail: string)
    requires u < TWO64 && (base == 8 || base == 16) && Blank(tail) && Parses(text, 0, TWO64, value, end)
    requires exists large ::
               text == (if base == 8 then ['0'] else ['0', 'x']) + (Repeat('0', zeros) + DigitsOf(u, base, large))
                 + tail
    ensures value == u
  {
    hide Parses, Repeat, DigitsOf, IsXDigit, InBase;
    var large :| text == (if base == 8 then ['0'] else ['0', 'x']) + (Repeat('0', zeros) + DigitsOf(u, base, large))
      + tail;
    var body := Repeat('0', zeros) + DigitsOf(u, base, large);
    ZerosThenDigits(zeros, u, base, large);
    assert InBase(body[0], base);
    NoXInBase(body[0], base);
    if base == 8 {
      assert text[1] == body[0];
      assert text[1..] == body + tail;
    } else {
      assert text[2] == body[0];
      assert text[2..] == body + tail;
    }
    DigitsParse(text, 0, value, end, zeros, u, large, tail);
  }

  lemma NoXInBase(c: char, base: nat)
    requires InBase(c, base)
    ensures c != 'x' && IsXDigit(c)
  {
  }

  lemma {:induction false} LeadingDigit(n: nat, base: nat, large: bool)
    requires 2 <= base <= 36 && 0 < n
    ensures DigitsOf(n, base, large)[0] != '0'
  {
    hide DigitsOf, DigitChar;
    FrontStep(n, base, large);
    SmallerQuotient(n, base);
    if n >= base {
      PositiveQuotient(n, base);
      LeadingDigit(n / base, base, large);
    } else {
      ShortNumber(n, base, large);
    }
  }

  lemma ShortNumber(n: nat, base: nat, large: bool)
    requires 2 <= base <= 36 && 0 < n < base
    ensures DigitsOf(n, base, large)[0] != '0'
  {
  }

  lemma PositiveQuotient(n: nat, base: nat)
    requires 0 < base <= n
    ensures 0 < n / base
  {
    DivModIdentity(n, base);
    MulOrder(0, n / base, base);
  }

  // ---------------------------------------------------------------- decimal digits read as octal

  /** How many characters of s, from the start, are octal digits. */
  function OctalRun(s: string): (n: nat)
    ensures n <= |s| && AllInBase(s[..n], 8) && !InBase(At(s[n..], 0), 8)
  {
    if s == [] || !InBase(s[0], 8) then 0
    else
      var n := 1 + OctalRun(s[1..]);
      assert s[..n] == [s[0]] + s[1..][..n - 1] && s[n..] == s[1..][n - 1..];
      n
  }

  /** The same digits are worth no more in base 8, and less once there is a difference. */
  lemma {:induction false} ReadOctalBelow(a: nat, b: nat, s: string)
    requires a <= b && AllInBase(s, 8)
    ensures AllInBase(s, 10) && Read(a, s, 8) <= Read(b, s, 10) && (a < b ==> Read(a, s, 8) < Read(b, s, 10))
    decreases |s|
  {
    assert forall i :: 0 <= i < |s| ==> InBase(s[i], 8) ==> InBase(s[i], 10);
    if s != [] { ReadOctalBelow(a * 8 + DigitValue(s[0]), b * 10 + DigitValue(s[0]), s[1..]); }
  }

  lemma {:induction false} ReadGrows(a: nat, s: string)
    requires AllInBase(s, 10)
    ensures Read(a, s, 10) >= a && (a > 0 && s != [] ==> Read(a, s, 10) > a)
    decreases |s|
  {
    if s != [] { ReadGrows(a * 10 + DigitValue(s[0]), s[1..]); }
  }

  lemma ReadFirst(a: nat, s: string, base: nat)
    requires s != [] && AllInBase(s, base)
    ensures InBase(s[0], base) && AllInBase(s[1..], base)
    ensures Read(a, s, base) == Read(a * base + DigitValue(s[0]), s[1..], base)
  {
  }

  lemma NonzeroDigit(c: char, base: nat)
    requires InBase(c, base) && c != '0'
    ensures DigitValue(c) > 0
  {
  }

  /** Two octal digits or more, the first not zero, are worth less than in base 10. */
  lemma OctalStrictlyBelow(p: string)
    requires |p| >= 2 && AllInBase(p, 8) && p[0] != '0'
    ensures AllInBase(p, 10) && Read(0, p, 8) < Read(0, p, 10)
  {
    hide Read, InBase, AllInBase, DigitValue;
    ReadOctalBelow(0, 0, p);
    ReadFirst(0, p, 8);
    ReadFirst(0, p, 10);
    NonzeroDigit(p[0], 8);
    var d, q := DigitValue(p[0]), p[1..];
    ReadFirst(d, q, 8);
    ReadFirst(d, q, 10);
    ReadOctalBelow(d * 8 + DigitValue(q[0]), d * 10 + DigitValue(q[0]), q[1..]);
  }

  /** A decimal of at least 8 read in base 8, up to its first digit that is not octal, gives less. */
  lemma OctalReadingIsLess(u: nat, large: bool)
    requires u > 0
    ensures var s := DigitsOf(u, 10, large); var n := OctalRun(s);
            && Read(0, s[..n], 8) <= u && (Read(0, s[..n], 8) == u <==> u < 8)
  {
    hide Read, InBase, AllInBase, DigitValue, DigitsOf, OctalRun;
    var s := DigitsOf(u, 10, large);
    var n := OctalRun(s);
    var p, q := s[..n], s[n..];
    DigitsReadBack(u, 10, large);
    LeadingDigit(u, 10, large);
    assert s == p + q;
    ReadOctalBelow(0, 0, p);
    SuffixInBase(p, q, 10);
    ReadConcat(0, p, q, 10);
    ReadGrows(Read(0, p, 10), q);
    NoDigits(8);
    if u < 8 {
      SmallDecimal(u, large);
    } else if n == 0 {
      assert p == [];
    } else if n == 1 {
      OneOctal(p);
      if q == [] { assert s == p; }
    } else {
      OctalStrictlyBelow(p);
    }
  }

  lemma SuffixInBase(p: string, q: string, base: nat)
    requires AllInBase(p + q, base)
    ensures AllInBase(q, base)
  {
    forall i | 0 <= i < |q| ensures InBase(q[i], base) {
      assert (p + q)[|p| + i] == q[i];
    }
  }

  lemma OneOctal(p: string)
    requires |p| == 1 && AllInBase(p, 8) && p[0] != '0'
    ensures AllInBase(p, 10) && 0 < Read(0, p, 8) < 8 && Read(0, p, 8) == Read(0, p, 10)
  {
    assert p == [p[0]];
    ReadOne(0, p[0], 8);
    ReadOne(0, p[0], 10);
  }

  lemma SmallDecimal(u: nat, large: bool)
    requires u < 8
    ensures var s := DigitsOf(u, 10, large); var n := OctalRun(s); AllInBase(s[..n], 8) && Read(0, s[..n], 8) == u
  {
    var s := DigitsOf(u, 10, large);
    DigitReadsBack(u, 8, large);
    assert s == [DigitChar(u, large)];
    assert OctalRun(s[1..]) == 0;
    assert s[..1] == s;
    ReadOne(0, s[0], 8);
  }

  /** With base 0, leading zeros make the parser take a decimal for octal. */
  lemma OctalParse(text: string, value: nat, end: nat, zeros: nat, u: nat, large: bool, tail: string)
    requires u < TWO64 && 0 < zeros && Blank(tail) && Parses(text, 0, TWO64, value, end)
    requires text == Repeat('0', zeros) + DigitsOf(u, 10, large) + tail
    ensures var s := DigitsOf(u, 10, large); value == Read(0, s[..OctalRun(s)], 8) % TWO64
  {
    hide Parses, DigitsOf, Read, InBase, AllInBase, OctalRun, Repeat, IsXDigit;
    var s := DigitsOf(u, 10, large);
    var n := OctalRun(s);
    var body, rest := Repeat('0', zeros - 1) + s[..n], s[n..] + tail;
    ZerosReadAsZero(zeros - 1, 8);
    ReadConcat(0, Repeat('0', zeros - 1), s[..n], 8);
    OneMoreZero(zeros - 1, s, tail);
    assert text[0] == '0' && text[1..] == body + rest by { Unpadded(text, zeros, s, tail, n); }
    DigitsReadBack(u, 10, large);
    DetectsOctal(text, zeros, s, tail);
    BlankEnds(tail, 8);
    assert At(rest, 0) == if n < |s| then At(s[n..], 0) else At(tail, 0);
    ParseOf(text, 0, TWO64, value, end, body, rest);
  }

  lemma Unpadded(text: string, zeros: nat, s: string, tail: string, n: nat)
    requires 0 < zeros && n <= |s| && text == Repeat('0', zeros) + s + tail
    ensures text[0] == '0' && text[1..] == Repeat('0', zeros - 1) + s[..n] + (s[n..] + tail)
  {
    assert Repeat('0', zeros) == ['0'] + Repeat('0', zeros - 1);
    assert s == s[..n] + s[n..];
  }

  lemma DetectsOctal(text: string, zeros: nat, s: string, tail: string)
    requires 0 < zeros && s != [] && AllInBase(s, 10) && text == Repeat('0', zeros) + s + tail
    ensures Detect(text, 0) == Start(1, 8)
  {
    assert text[0] == '0';
    assert text[1] == if zeros > 1 then '0' else s[0];
    assert InBase(s[0], 10);
  }

  /** With base 0, a printed decimal reads back exactly when nothing stands before its digits: not
      spaces, and no zeros either unless the number is the same in octal. */
  lemma PrintDecimalThenDetectIff(u: nat, width: int, precision: int, f: Flags, value: nat, end: nat)
    requires u < TWO64 && !f.sign && Parses(Field(u, 10, width, precision, f), 0, TWO64, value, end)
    ensures value == u <==>
              u == 0 || (!LeadingSpaces(u, 10, width, precision, f)
                && (u < 8 || ZeroCount(u, 10, width, precision, f) == 0))
  {
    hide Parses, LeadingSpaces, Field, Repeat, DigitsOf, ZeroCount, IsXDigit, InBase, Read, OctalRun;
    var text := Field(u, 10, width, precision, f);
    if LeadingSpaces(u, 10, width, precision, f) {
      SpacesFirst(u, 10, width, precision, f);
      NoDigits(10);
      assert text[0..] == [] + text;
      SpaceInNoBase(10);
      ParseOf(text, 0, TWO64, value, end, [], text);
    } else {
      var tail := FieldShape(u, 10, width, precision, f);
      var zeros, digits := ZeroCount(u, 10, width, precision, f), DigitsOf(u, 10, f.large);
      assert SignOf(u, f) + PrefixOf(10, f) == [];
      assert text == Repeat('0', zeros) + digits + tail;
      if zeros > 0 {
        OctalParse(text, value, end, zeros, u, f.large, tail);
        if u == 0 { SmallDecimal(u, f.large); } else { OctalReadingIsLess(u, f.large); }
      } else {
        UnpaddedDecimal(text, value, end, u, f.large, tail);
      }
    }
  }

  lemma SpaceInNoBase(base: nat)
    ensures !InBase(' ', base)
  {
  }

  lemma UnpaddedDecimal(text: string, value: nat, end: nat, u: nat, large: bool, tail: string)
    requires u < TWO64 && Blank(tail) && Parses(text, 0, TWO64, value, end)
    requires text == Repeat('0', 0) + DigitsOf(u, 10, large) + tail
    ensures value == u
  {
    hide Parses, Repeat, DigitsOf, IsXDigit, InBase, Read;
    var digits := DigitsOf(u, 10, large);
    NoRepeats();
    if u == 0 {
      OneDigit(10, large);
      assert text[0] == '0' && text[1..] == [] + tail;
      assert At(text, 1) == At(tail, 0);
      BlankEnds(tail, 8);
      NoDigits(8);
      assert Detect(text, 0) == Start(1, 8);
      ParseOf(text, 0, TWO64, value, end, [], tail);
    } else {
      LeadingDigit(u, 10, large);
      assert text[0] == digits[0];
      assert text[0..] == text;
      DigitsParse(text, 0, value, end, 0, u, large, tail);
    }
  }

  /** Signed printing and signed parsing are inverse on bit patterns exactly when the parser meets
      nothing it does not know before the digits: spaces, a printed plus or space, or "0x". */
  lemma PrintThenParseSignedIff(u: nat, base: nat, width: int, precision: int, f: Flags, value: nat, end: nat)
    requires u < TWO64 && 2 <= base <= 16 && f.sign
    requires ParsesSigned(Field(u, base, width, precision, f), base, TWO64, value, end)
    ensures value == u <==>
              || u == 0
              || (&& !LeadingSpaces(u, base, width, precision, f) && !(f.special && base == 16)
                  && (u >= TWO63 || (!f.plus && !f.space)))
  {
    hide Parses, LeadingSpaces, Field, Repeat, DigitsOf, ZeroCount, InBase, PrefixOf;
    var text := Field(u, base, width, precision, f);
    SpaceInNoBase(base);
    if LeadingSpaces(u, base, width, precision, f) {
      SpacesFirst(u, base, width, precision, f);
      NothingToParse(text, base, value, end);
    } else {
      var tail := FieldShape(u, base, width, precision, f);
      var zeros := ZeroCount(u, base, width, precision, f);
      var body := Repeat('0', zeros) + DigitsOf(Magnitude(u, f), base, f.large);
      var rest := PrefixOf(base, f) + body + tail;
      Shift(SignOf(u, f), PrefixOf(base, f), body, tail);
      assert text == SignOf(u, f) + rest;
      if u >= TWO63 {
        assert text[0] == '-' && text[1..] == rest;
        var v :| Parses(text[1..], base, TWO64, v, end - 1) && value == Negated(v, TWO64);
        PrefixedParse(rest, base, v, end - 1, f, zeros, TWO64 - u, tail);
      } else if f.plus || f.space {
        assert text[0] == if f.plus then '+' else ' ';
        PlusInNoBase(base);
        NothingToParse(text, base, value, end);
      } else {
        assert SignOf(u, f) == [] && text == rest;
        NoMinusFirst(base, f, zeros, u, tail);
        PrefixedParse(text, base, value, end, f, zeros, u, tail);
      }
    }
  }

  lemma Shift(a: string, b: string, c: string, d: string)
    ensures a + b + c + d == a + (b + c + d)
  {
  }

  lemma PlusInNoBase(base: nat)
    ensures !InBase('+', base)
  {
  }

  lemma NoMinusFirst(base: nat, f: Flags, zeros: nat, n: nat, tail: string)
    requires 2 <= base <= 16
    ensures At(PrefixOf(base, f) + (Repeat('0', zeros) + DigitsOf(n, base, f.large)) + tail, 0) != '-'
  {
    hide DigitsOf, Repeat;
    var body := Repeat('0', zeros) + DigitsOf(n, base, f.large);
    ZerosThenDigits(zeros, n, base, f.large);
    assert InBase(body[0], base);
    NoMinusInBase(body[0], base);
    if PrefixOf(base, f) == [] { assert (PrefixOf(base, f) + body + tail)[0] == body[0]; }
  }

  lemma NoMinusInBase(c: char, base: nat)
    requires InBase(c, base)
    ensures c != '-'
  {
  }
}
