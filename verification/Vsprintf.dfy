/**
 vsprintf of kernel/vsprintf.c.  A format means a list of pieces; each piece is rendered with the
 arguments it takes.  The kernel does both in one scan of the format.
 */
module Vsprintf {
  import opened Numbers
  import opened Strtoul

  type DoubleWord = x: nat | x < TWO64

  /** The arguments vsprintf can fetch: a 32-bit word (int, long, pointer), a long long, a string or
      a null string. */
  datatype Arg = Int(bits: Word) | Wide(wide: DoubleWord) | Text(text: string) | NullText

  // ---------------------------------------------------------------- formats as pieces

  datatype Count = Absent | Given(n: nat) | FromArgs

  datatype Piece =
    | Plain(c: char)
    | Directive(flags: Flags, width: Count, precision: Count, qualifier: Option<char>, conv: Option<char>)

  /** The part of a format that was read, and what follows it. */
  datatype Parsed<T> = Parsed(value: T, rest: string)

  const NO_FLAGS := Flags(false, false, false, false, false, false, false)

  predicate IsFlag(c: char) { c in "-+ #0" }

  function AddFlag(f: Flags, c: char): Flags {
    if c == '-' then f.(left := true)
    else if c == '+' then f.(plus := true)
    else if c == ' ' then f.(space := true)
    else if c == '#' then f.(special := true)
    else f.(zeropad := true)
  }

  function ParseFlags(f: Flags, s: string): (r: Parsed<Flags>)
    ensures |r.rest| <= |s|
    decreases |s|
  {
    if s != [] && IsFlag(s[0]) then ParseFlags(AddFlag(f, s[0]), s[1..]) else Parsed(f, s)
  }

  function ParseDigits(n: nat, s: string): (r: Parsed<nat>)
    ensures |r.rest| <= |s|
    decreases |s|
  {
    if s != [] && IsDigit(s[0]) then ParseDigits(n * 10 + DigitValue(s[0]), s[1..]) else Parsed(n, s)
  }

  function ParseCount(s: string, otherwise: Count): Parsed<Count> {
    if s != [] && IsDigit(s[0]) then var d := ParseDigits(0, s); Parsed(Given(d.value), d.rest)
    else if s != [] && s[0] == '*' then Parsed(FromArgs, s[1..])
    else Parsed(otherwise, s)
  }

  function ParsePrecision(s: string): Parsed<Count> {
    if s != [] && s[0] == '.' then ParseCount(s[1..], Given(0)) else Parsed(Absent, s)
  }

  predicate IsQualifier(c: char) { c in "hlLZ" }

  function ParseQualifier(s: string): Parsed<Option<char>> {
    if s != [] && IsQualifier(s[0]) then Parsed(Some(s[0]), s[1..]) else Parsed(None, s)
  }

  function ParseConversion(s: string): Parsed<Option<char>> {
    if s != [] then Parsed(Some(s[0]), s[1..]) else Parsed(None, s)
  }

  /** A directive, from behind its percent sign. */
  function ParseDirective(s: string): Parsed<Piece> {
    var flags := ParseFlags(NO_FLAGS, s);
    var width := ParseCount(flags.rest, Absent);
    var precision := ParsePrecision(width.rest);
    var qualifier := ParseQualifier(precision.rest);
    var conv := ParseConversion(qualifier.rest);
    Parsed(Directive(flags.value, width.value, precision.value, qualifier.value, conv.value), conv.rest)
  }

  lemma DirectiveShrinks(s: string)
    ensures |ParseDirective(s).rest| <= |s|
  {
  }

  /** The pieces of a format. */
  function Parse(s: string): seq<Piece>
    decreases |s|
  {
    if s == [] then []
    else if s[0] != '%' then [Plain(s[0])] + Parse(s[1..])
    else
      var d := ParseDirective(s[1..]);
      DirectiveShrinks(s[1..]);
      [d.value] + Parse(d.rest)
  }

  // ---------------------------------------------------------------- rendering

  /** Text produced and arguments left, or Mismatch where the arguments do not fit the format. */
  datatype Outcome = Mismatch | Out(text: string, args: seq<Arg>)

  datatype Taken = Nothing | Took(value: int, args: seq<Arg>)

  function TakeCount(c: Count, args: seq<Arg>): Taken {
    match c
    case Absent => Took(-1, args)
    case Given(n) => Took(n, args)
    case FromArgs => if args != [] && args[0].Int? then Took(AsInt(args[0].bits), args[1..]) else Nothing
  }

  /** The low `bits` of w as a signed 64-bit pattern. */
  function SignExtend(w: nat, modulus: nat): DoubleWord
    requires w < modulus <= TWO32
  {
    if 2 * w < modulus then w else TWO64 - modulus + w
  }

  /** The 64-bit number an integer directive prints, from the argument its qualifier asks for. */
  function IntegerValue(qualifier: Option<char>, signed: bool, a: Arg): Option<DoubleWord> {
    if qualifier == Some('L') then (if a.Wide? then Some(a.wide) else None)
    else if !a.Int? then None
    else if qualifier == Some('Z') then Some(a.bits)
    else if qualifier == Some('h') then Some(if signed then SignExtend(a.bits % 0x10000, 0x10000) else a.bits % 0x10000)
    else Some(if signed then SignExtend(a.bits, TWO32) else a.bits)
  }

  function Padded(s: string, width: int, left: bool): string {
    if left then s + Repeat(' ', width - |s|) else Repeat(' ', width - |s|) + s
  }

  /** The characters %s shows: a precision limits them; a negative one, as a size_t, hardly does. */
  function Shown(s: string, precision: int): string {
    var limit := if precision < 0 then precision + TWO32 else precision;
    if 0 <= limit < |s| then s[..limit] else s
  }

  datatype Integer = NotInteger | Integer(base: nat, flags: Flags)

  function IntegerConversion(conv: Option<char>, f: Flags): (r: Integer)
    ensures r.Integer? ==> r.base in [8, 10, 16]
  {
    if conv == Some('o') then Integer(8, f)
    else if conv == Some('x') then Integer(16, f)
    else if conv == Some('X') then Integer(16, f.(large := true))
    else if conv == Some('d') || conv == Some('i') then Integer(10, f.(sign := true))
    else if conv == Some('u') then Integer(10, f)
    else NotInteger
  }

  /** One conversion, once width and precision are known. */
  function Convert(conv: Option<char>, qualifier: Option<char>, f: Flags, width: int, precision: int,
      args: seq<Arg>): Outcome {
    var whole := IntegerConversion(conv, f);
    if conv == Some('c') then
      if args != [] && args[0].Int?
      then Out(Padded([(args[0].bits % 256) as char], width, f.left), args[1..])
      else Mismatch
    else if conv == Some('s') then
      if args != [] && (args[0].Text? || args[0].NullText?)
      then Out(Padded(Shown(if args[0].Text? then args[0].text else "<NULL>", precision), width, f.left), args[1..])
      else Mismatch
    else if conv == Some('p') then
      if args != [] && args[0].Int?
      then Out(if width == -1 then Field(args[0].bits, 16, 8, precision, f.(zeropad := true))
               else Field(args[0].bits, 16, width, precision, f), args[1..])
      else Mismatch
    else if whole.Integer? then
      if args != [] && IntegerValue(qualifier, whole.flags.sign, args[0]).Some?
      then
        var num := IntegerValue(qualifier, whole.flags.sign, args[0]).value;
        Out(Field(num, whole.base, width, precision, whole.flags), args[1..])
      else Mismatch
    else if conv == Some('n') then Mismatch
    else if conv == Some('%') || conv == None then Out("%", args)
    else Out(['%', conv.value], args)
  }

  function RenderPiece(p: Piece, args: seq<Arg>): Outcome {
    match p
    case Plain(c) => Out([c], args)
    case Directive(flags, w, p, qualifier, conv) =>
      var width := TakeCount(w, args);
      if width == Nothing then Mismatch else
        var precision := TakeCount(p, width.args);
        if precision == Nothing then Mismatch else
          var negative := w == FromArgs && width.value < 0;
          Convert(conv, qualifier,
                  if negative then flags.(left := true) else flags,
                  if negative then -width.value else width.value,
                  if p == Absent then -1 else Max(precision.value, 0),
                  precision.args)
  }

  function Prepend(s: string, o: Outcome): Outcome {
    if o == Mismatch then Mismatch else Out(s + o.text, o.args)
  }

  /** The pieces rendered one after the other. */
  function Render(pieces: seq<Piece>, args: seq<Arg>): Outcome {
    if pieces == [] then Out([], args)
    else
      var o := RenderPiece(pieces[0], args);
      if o == Mismatch then Mismatch else Prepend(o.text, Render(pieces[1..], o.args))
  }

  // ---------------------------------------------------------------- the scanner

  lemma Advance(s: string, i: nat)
    requires i < |s|
    ensures s[i..] != [] && s[i..][0] == s[i] && s[i..][1..] == s[i + 1..]
  {
  }

  /** The loop at `repeat:`, entered behind the percent sign. */
  method ScanFlags(fmt: string, start: nat) returns (flags: Flags, i: nat)
    requires start <= |fmt|
    ensures start <= i <= |fmt| && ParseFlags(NO_FLAGS, fmt[start..]) == Parsed(flags, fmt[i..])
  {
    flags, i := NO_FLAGS, start;
    while i < |fmt| && IsFlag(fmt[i])
      invariant start <= i <= |fmt| && ParseFlags(NO_FLAGS, fmt[start..]) == ParseFlags(flags, fmt[i..])
    {
      Advance(fmt, i);
      flags, i := AddFlag(flags, fmt[i]), i + 1;
    }
  }

  /** kernel/vsprintf.c, skip_atoi. */
  method SkipAtoi(fmt: string, start: nat) returns (n: nat, i: nat)
    requires start <= |fmt|
    ensures start <= i <= |fmt| && ParseDigits(0, fmt[start..]) == Parsed(n, fmt[i..])
  {
    n, i := 0, start;
    while i < |fmt| && IsDigit(fmt[i])
      invariant start <= i <= |fmt| && ParseDigits(0, fmt[start..]) == ParseDigits(n, fmt[i..])
    {
      Advance(fmt, i);
      n, i := n * 10 + DigitValue(fmt[i]), i + 1;
    }
  }

  /** The field width: digits, or a star for the next argument, whose sign means left justification. */
  method ScanWidth(fmt: string, start: nat, flags: Flags, args: seq<Arg>)
      returns (width: int, flags': Flags, i: nat, args': seq<Arg>)
    requires start <= |fmt| && TakeCount(ParseCount(fmt[start..], Absent).value, args) != Nothing
    ensures start <= i <= |fmt| && ParseCount(fmt[start..], Absent).rest == fmt[i..]
    ensures var c := ParseCount(fmt[start..], Absent).value;
            var t := TakeCount(c, args);
            var negative := c == FromArgs && t.value < 0;
            && args' == t.args
            && width == (if negative then -t.value else t.value)
            && flags' == if negative then flags.(left := true) else flags
  {
    hide ParseDigits;
    width, flags', i, args' := -1, flags, start, args;
    if start < |fmt| { Advance(fmt, start); }
    if i < |fmt| && IsDigit(fmt[i]) {
      width, i := SkipAtoi(fmt, i);
    } else if i < |fmt| && fmt[i] == '*' {
      i := i + 1;
      width, args' := AsInt(args[0].bits), args[1..];
      if width < 0 {
        width, flags' := -width, flags.(left := true);
      }
    }
  }

  /** The precision, never negative once a dot is seen. */
  method ScanPrecision(fmt: string, start: nat, args: seq<Arg>) returns (precision: int, i: nat, args': seq<Arg>)
    requires start <= |fmt| && TakeCount(ParsePrecision(fmt[start..]).value, args) != Nothing
    ensures start <= i <= |fmt| && ParsePrecision(fmt[start..]).rest == fmt[i..]
    ensures var c := ParsePrecision(fmt[start..]).value;
            var t := TakeCount(c, args);
            args' == t.args && precision == if c == Absent then -1 else Max(t.value, 0)
  {
    hide ParseDigits;
    precision, i, args' := -1, start, args;
    if start < |fmt| { Advance(fmt, start); }
    if i < |fmt| && fmt[i] == '.' {
      i := i + 1;
      if i < |fmt| { Advance(fmt, i); }
      if i < |fmt| && IsDigit(fmt[i]) {
        precision, i := SkipAtoi(fmt, i);
      } else if i < |fmt| && fmt[i] == '*' {
        i := i + 1;
        precision, args' := AsInt(args[0].bits), args[1..];
      }
      if precision < 0 {
        precision := 0;
      }
    }
  }

  method ScanQualifier(fmt: string, start: nat) returns (qualifier: Option<char>, i: nat)
    requires start <= |fmt|
    ensures start <= i <= |fmt| && ParseQualifier(fmt[start..]) == Parsed(qualifier, fmt[i..])
  {
    qualifier, i := None, start;
    if i < |fmt| {
      Advance(fmt, i);
      if IsQualifier(fmt[i]) {
        qualifier, i := Some(fmt[i]), i + 1;
      }
    }
  }

  /** The character a scan stops at; None at the end of the format. */
  function Stop(fmt: string, i: nat): Option<char> { if i < |fmt| then Some(fmt[i]) else None }

  /** Everything of a directive up to its conversion character. */
  method ScanDirective(fmt: string, start: nat, args: seq<Arg>)
      returns (flags: Flags, width: int, precision: int, qualifier: Option<char>, i: nat, args': seq<Arg>)
    requires start <= |fmt| && RenderPiece(ParseDirective(fmt[start..]).value, args) != Mismatch
    ensures start <= i <= |fmt| && -1 <= precision
    ensures ParseDirective(fmt[start..]).rest == fmt[if i < |fmt| then i + 1 else i..]
    ensures RenderPiece(ParseDirective(fmt[start..]).value, args)
            == Convert(Stop(fmt, i), qualifier, flags, width, precision, args')
  {
    hide Convert, ParseFlags, ParseCount, ParsePrecision, ParseQualifier, TakeCount;
    flags, i := ScanFlags(fmt, start);
    width, flags, i, args' := ScanWidth(fmt, i, flags, args);
    precision, i, args' := ScanPrecision(fmt, i, args');
    qualifier, i := ScanQualifier(fmt, i);
    if i < |fmt| { Advance(fmt, i); }
  }

  // ---------------------------------------------------------------- the conversions

  /** kernel/vsprintf.c, strnlen, on a size_t count. */
  method Strnlen(s: string, count: nat) returns (n: nat)
    ensures n == if count < |s| then count else |s|
  {
    n := 0;
    var left := count;
    while left > 0 && n < |s|
      invariant n <= |s| && n + left == count
    {
      left, n := left - 1, n + 1;
    }
  }

  /** The loop `while (--field_width > 0) *str++ = ' '`. */
  method PadChar(str: string, fieldWidth: int) returns (str': string, left: int)
    ensures str' == str + Repeat(' ', fieldWidth - 1)
    ensures left == if fieldWidth > 1 then 0 else fieldWidth - 1
  {
    str', left := str, fieldWidth - 1;
    while left > 0
      invariant left <= fieldWidth - 1 && (fieldWidth <= 1 ==> left == fieldWidth - 1) && (fieldWidth > 1 ==> 0 <= left)
      invariant str' == str + Repeat(' ', fieldWidth - 1 - left)
    {
      RepeatSnoc(' ', fieldWidth - 1 - left);
      str', left := str' + [' '], left - 1;
    }
  }

  /** %c. */
  method PutChar(str: string, bits: Word, fieldWidth: int, left: bool) returns (str': string)
    ensures str' == str + Padded([(bits % 256) as char], fieldWidth, left)
  {
    var width := fieldWidth;
    str' := str;
    if !left {
      str', width := PadChar(str', width);
    }
    str' := str' + [(bits % 256) as char];
    str', width := PadChar(str', width);
    NoRepeats();
  }

  /** %s.  The loop `while (len < field_width--)` counts field_width - len down. */
  method PutString(str: string, s: string, fieldWidth: int, precision: int, left: bool) returns (str': string)
    requires -1 <= precision
    ensures str' == str + Padded(Shown(s, precision), fieldWidth, left)
  {
    hide Repeat;
    var len := Strnlen(s, if precision < 0 then precision + TWO32 else precision);
    var over := fieldWidth - len;
    ghost var shown := s[..len];
    assert shown == Shown(s, precision);
    hide Shown;
    NoRepeats();
    str' := str;
    if !left {
      str', over := Pad(str', ' ', over);
    }
    str' := PutPrefix(str', s, len);
    assert str' == str + (if left then shown else Padded(shown, fieldWidth, left));
    str', over := Pad(str', ' ', over);
    assert str' == str + Padded(shown, fieldWidth, left);
  }

  method PutPrefix(str: string, s: string, len: nat) returns (str': string)
    requires len <= |s|
    ensures str' == str + s[..len]
  {
    str' := str;
    var i := 0;
    while i < len
      invariant i <= len && str' == str + s[..i]
    {
      assert s[..i + 1] == s[..i] + [s[i]];
      str', i := str' + [s[i]], i + 1;
    }
  }

  /** Fetching the argument of an integer conversion, widened to 64 bits as C's conversions do. */
  method FetchInteger(qualifier: Option<char>, signed: bool, a: Arg) returns (num: DoubleWord)
    requires IntegerValue(qualifier, signed, a).Some?
    ensures num == IntegerValue(qualifier, signed, a).value
  {
    if qualifier == Some('L') {
      num := a.wide;
    } else if qualifier == Some('l') {
      num := a.bits;
      if signed { num := SignExtend(num, TWO32); }
    } else if qualifier == Some('Z') {
      num := a.bits;
    } else if qualifier == Some('h') {
      num := a.bits % 0x10000;
      if signed { num := SignExtend(num, 0x10000); }
    } else {
      num := a.bits;
      if signed { num := SignExtend(num, TWO32); }
    }
  }

  /** The integer cases of the switch: base and flags for number(). */
  method ChooseBase(conv: char, f: Flags) returns (base: nat, flags: Flags)
    requires IntegerConversion(Some(conv), f).Integer?
    ensures IntegerConversion(Some(conv), f) == Integer(base, flags) && base in [8, 10, 16]
  {
    base, flags := 10, f;
    if conv == 'o' {
      base := 8;
    } else if conv == 'X' {
      flags, base := flags.(large := true), 16;
    } else if conv == 'x' {
      base := 16;
    } else if conv == 'd' || conv == 'i' {
      flags := flags.(sign := true);
    }
  }

  method PutInteger(str: string, conv: char, qualifier: Option<char>, f: Flags, width: int, precision: int, a: Arg)
      returns (str': string)
    requires var w := IntegerConversion(Some(conv), f); w.Integer? && IntegerValue(qualifier, w.flags.sign, a).Some?
    ensures var w := IntegerConversion(Some(conv), f);
            str' == str + Field(IntegerValue(qualifier, w.flags.sign, a).value, w.base, width, precision, w.flags)
  {
    hide Field, IntegerValue, IntegerConversion;
    var base, flags := ChooseBase(conv, f);
    var num := FetchInteger(qualifier, flags.sign, a);
    var _, text := Number(num, base, width, precision, flags);
    str' := str + text;
  }

  /** %p: a bare one is eight digits wide. */
  method PutPointer(str: string, bits: Word, width: int, precision: int, f: Flags) returns (str': string)
    ensures str' == str + if width == -1 then Field(bits, 16, 8, precision, f.(zeropad := true))
            else Field(bits, 16, width, precision, f)
  {
    hide Field;
    var fieldWidth, flags := width, f;
    if fieldWidth == -1 {
      fieldWidth, flags := 8, flags.(zeropad := true);
    }
    var _, text := Number(bits, 16, fieldWidth, precision, flags);
    str' := str + text;
  }

  /** The switch on the conversion character, or on the end of the format. */
  method PutConversion(str: string, conv: Option<char>, qualifier: Option<char>, f: Flags, width: int, precision: int,
      args: seq<Arg>)
      returns (str': string, args': seq<Arg>)
    requires -1 <= precision && Convert(conv, qualifier, f, width, precision, args) != Mismatch
    ensures Out(str', args') == Prepend(str, Convert(conv, qualifier, f, width, precision, args))
  {
    hide Field, IntegerValue, Padded, Shown;
    args' := args;
    if conv == Some('c') {
      str' := PutChar(str, args[0].bits, width, f.left);
      args' := args[1..];
    } else if conv == Some('s') {
      str' := PutString(str, if args[0].NullText? then "<NULL>" else args[0].text, width, precision, f.left);
      args' := args[1..];
    } else if conv == Some('p') {
      str' := PutPointer(str, args[0].bits, width, precision, f);
      args' := args[1..];
    } else if conv == Some('%') {
      str' := str + ['%'];
    } else if conv.Some? && conv.value in "oxXdiu" {
      str' := PutInteger(str, conv.value, qualifier, f, width, precision, args[0]);
      args' := args[1..];
    } else {
      str' := str + ['%'];
      if conv.Some? {
        str' := str' + [conv.value];
      }
    }
  }

  lemma PrependTwice(a: string, b: string, o: Outcome)
    ensures Prepend(a, Prepend(b, o)) == Prepend(a + b, o)
  {
    if o != Mismatch { assert a + (b + o.text) == a + b + o.text; }
  }

  /** Rendering what is left, one piece further on. */
  lemma RenderNext(fmt: string, i: nat, args: seq<Arg>)
    requires i < |fmt|
    ensures var d := ParseDirective(fmt[i + 1..]);
            var p := if fmt[i] != '%' then Plain(fmt[i]) else d.value;
            var o := RenderPiece(p, args);
            Render(Parse(fmt[i..]), args) == if o == Mismatch then Mismatch
                                             else Prepend(o.text,
                                               Render(Parse(if fmt[i] != '%' then fmt[i + 1..] else d.rest), o.args))
  {
    hide ParseDirective, RenderPiece;
    Advance(fmt, i);
    var s := fmt[i..];
    var d := ParseDirective(fmt[i + 1..]);
    DirectiveShrinks(fmt[i + 1..]);
    var p := if fmt[i] != '%' then Plain(fmt[i]) else d.value;
    var rest := Parse(if fmt[i] != '%' then fmt[i + 1..] else d.rest);
    assert Parse(s) == [p] + rest;
    assert ([p] + rest)[1..] == rest;
  }

  /** kernel/vsprintf.c, vsprintf: the buffer it fills, with the closing NUL, and the length it returns. */
  method Vsprintf(fmt: string, args: seq<Arg>) returns (buf: string, len: nat)
    requires Render(Parse(fmt), args) != Mismatch
    ensures buf == Render(Parse(fmt), args).text + [0 as char] && len == |buf| - 1
  {
    hide Render, Parse, ParseDirective, RenderPiece, Convert;
    var str, i, rest := [], 0, args;
    assert fmt[0..] == fmt;
    while i < |fmt|
      invariant i <= |fmt|
      invariant Render(Parse(fmt), args) == Prepend(str, Render(Parse(fmt[i..]), rest))
      decreases |fmt| - i
    {
      RenderNext(fmt, i, rest);
      ghost var before := str;
      if fmt[i] != '%' {
        assert RenderPiece(Plain(fmt[i]), rest) == Out([fmt[i]], rest) by { PlainRenders(fmt[i], rest); }
        PrependTwice(before, [fmt[i]], Render(Parse(fmt[i + 1..]), rest));
        str := str + [fmt[i]];
        i := i + 1;
      } else {
        var flags, width, precision, qualifier;
        ghost var o := RenderPiece(ParseDirective(fmt[i + 1..]).value, rest);
        ghost var next := ParseDirective(fmt[i + 1..]).rest;
        flags, width, precision, qualifier, i, rest := ScanDirective(fmt, i + 1, rest);
        str, rest := PutConversion(str, Stop(fmt, i), qualifier, flags, width, precision, rest);
        PrependTwice(before, o.text, Render(Parse(next), o.args));
        if i == |fmt| {
          i := i - 1;
        }
        i := i + 1;
      }
    }
    assert fmt[i..] == [];
    EmptyRenders(rest);
    assert str + [] == str;
    buf := str + [0 as char];
    len := |str|;
  }

  lemma PlainRenders(c: char, args: seq<Arg>)
    ensures RenderPiece(Plain(c), args) == Out([c], args)
  {
  }

  lemma EmptyRenders(args: seq<Arg>)
    ensures Render(Parse([]), args) == Out([], args)
  {
  }

  // ---------------------------------------------------------------- formats written back

  function Mark(c: char, on: bool): string { if on then [c] else [] }

  function ShowFlags(f: Flags): string {
    Mark('-', f.left) + (Mark('+', f.plus) + (Mark(' ', f.space) + (Mark('#', f.special) + Mark('0', f.zeropad))))
  }

  function ShowCount(c: Count): string {
    match c
    case Absent => []
    case Given(n) => DigitsOf(n, 10, false)
    case FromArgs => "*"
  }

  function ShowPrecision(c: Count): string { if c == Absent then [] else ['.'] + ShowCount(c) }

  function ShowOption(c: Option<char>): string { if c.Some? then [c.value] else [] }

  function ShowDirective(d: Piece): string
    requires d.Directive?
  {
    ShowFlags(d.flags)
      + (ShowCount(d.width) + (ShowPrecision(d.precision) + (ShowOption(d.qualifier) + ShowOption(d.conv))))
  }

  function ShowPiece(p: Piece): string { if p.Plain? then [p.c] else ['%'] + ShowDirective(p) }

  function Show(pieces: seq<Piece>): string {
    if pieces == [] then [] else ShowPiece(pieces[0]) + Show(pieces[1..])
  }

  /** A character that can only be the conversion of a directive. */
  predicate IsConversion(c: char) { c !in "-+ #0123456789*.hlLZ" }

  /** A piece that a format can spell: a width of zero would be read as a flag. */
  predicate Writable(p: Piece) {
    match p
    case Plain(c) => c != '%'
    case Directive(flags, width, precision, qualifier, conv) =>
      && !flags.sign && !flags.large && width != Given(0)
      && qualifier in [None, Some('h'), Some('l'), Some('L'), Some('Z')]
      && conv.Some? && IsConversion(conv.value)
  }

  lemma MarkParses(f: Flags, c: char, on: bool, s: string)
    requires IsFlag(c)
    ensures ParseFlags(f, Mark(c, on) + s) == ParseFlags(if on then AddFlag(f, c) else f, s)
  {
    if on {
      assert ([c] + s)[1..] == s;
    } else {
      assert [] + s == s;
    }
  }

  lemma FlagsParse(f: Flags, s: string)
    requires !f.sign && !f.large && (s == [] || !IsFlag(s[0]))
    ensures ParseFlags(NO_FLAGS, ShowFlags(f) + s) == Parsed(f, s)
  {
    hide *;
    var m0, m1, m2, m3, m4 := Mark('-', f.left), Mark('+', f.plus), Mark(' ', f.space), Mark('#', f.special),
      Mark('0', f.zeropad);
    FlagsText(f, s);
    FlagChars();
    MarkParses(NO_FLAGS, '-', f.left, m1 + (m2 + (m3 + (m4 + s))));
    var f0 := if f.left then AddFlag(NO_FLAGS, '-') else NO_FLAGS;
    MarkParses(f0, '+', f.plus, m2 + (m3 + (m4 + s)));
    var f1 := if f.plus then AddFlag(f0, '+') else f0;
    MarkParses(f1, ' ', f.space, m3 + (m4 + s));
    var f2 := if f.space then AddFlag(f1, ' ') else f1;
    MarkParses(f2, '#', f.special, m4 + s);
    var f3 := if f.special then AddFlag(f2, '#') else f2;
    MarkParses(f3, '0', f.zeropad, s);
    var f4 := if f.zeropad then AddFlag(f3, '0') else f3;
    FlagSteps(f);
    NoMoreFlags(f4, s);
  }

  lemma FlagChars()
    ensures IsFlag('-') && IsFlag('+') && IsFlag(' ') && IsFlag('#') && IsFlag('0')
  {
  }

  /** Adding the flags of f one by one to none gives f. */
  lemma FlagSteps(f: Flags)
    requires !f.sign && !f.large
    ensures var f0 := if f.left then AddFlag(NO_FLAGS, '-') else NO_FLAGS;
            var f1 := if f.plus then AddFlag(f0, '+') else f0;
            var f2 := if f.space then AddFlag(f1, ' ') else f1;
            var f3 := if f.special then AddFlag(f2, '#') else f2;
            (if f.zeropad then AddFlag(f3, '0') else f3) == f
  {
  }

  lemma Assoc(a: string, b: string, c: string)
    ensures a + b + c == a + (b + c)
  {
  }

  lemma FlagsText(f: Flags, s: string)
    ensures ShowFlags(f) + s
            == Mark('-', f.left)
            + (Mark('+', f.plus) + (Mark(' ', f.space) + (Mark('#', f.special) + (Mark('0', f.zeropad) + s))))
  {
    hide Mark;
    var m0, m1, m2, m3, m4 := Mark('-', f.left), Mark('+', f.plus), Mark(' ', f.space), Mark('#', f.special),
      Mark('0', f.zeropad);
    Assoc(m0, m1 + (m2 + (m3 + m4)), s);
    Assoc(m1, m2 + (m3 + m4), s);
    Assoc(m2, m3 + m4, s);
    Assoc(m3, m4, s);
  }

  lemma NoMoreFlags(f: Flags, s: string)
    requires s == [] || !IsFlag(s[0])
    ensures ParseFlags(f, s) == Parsed(f, s)
  {
  }

  lemma {:induction false} DigitsParsed(n: nat, a: string, s: string)
    requires AllInBase(a, 10) && (s == [] || !IsDigit(s[0]))
    ensures ParseDigits(n, a + s) == Parsed(Read(n, a, 10), s)
    decreases |a|
  {
    if a == [] {
      assert a + s == s;
    } else {
      assert (a + s)[0] == a[0] && (a + s)[1..] == a[1..] + s;
      assert InBase(a[0], 10);
      DigitsParsed(n * 10 + DigitValue(a[0]), a[1..], s);
    }
  }

  lemma FirstDigit(n: nat)
    ensures var d := DigitsOf(n, 10, false); IsDigit(d[0]) && (n > 0 ==> !IsFlag(d[0]))
  {
    DigitsReadBack(n, 10, false);
    assert InBase(DigitsOf(n, 10, false)[0], 10);
    if n > 0 { LeadingDigit(n, 10, false); }
  }

  lemma CountParses(c: Count, s: string, otherwise: Count)
    requires s == [] || (!IsDigit(s[0]) && s[0] != '*')
    requires c == Absent ==> otherwise == Absent
    ensures ParseCount(ShowCount(c) + s, otherwise) == Parsed(c, s)
  {
    hide DigitsOf, ParseDigits, Read;
    var t := ShowCount(c) + s;
    match c
    case Absent => assert t == s;
    case FromArgs => assert t[0] == '*' && t[1..] == s;
    case Given(n) =>
      FirstDigit(n);
      assert t[0] == DigitsOf(n, 10, false)[0];
      DigitsReadBack(n, 10, false);
      DigitsParsed(0, DigitsOf(n, 10, false), s);
  }

  lemma PrecisionParses(c: Count, s: string)
    requires s == [] || (!IsDigit(s[0]) && s[0] != '*' && s[0] != '.')
    ensures ParsePrecision(ShowPrecision(c) + s) == Parsed(c, s)
  {
    hide ParseCount, ShowCount;
    var t := ShowPrecision(c) + s;
    if c == Absent {
      assert t == s;
    } else {
      assert t[0] == '.' && t[1..] == ShowCount(c) + s;
      CountParses(c, s, Given(0));
    }
  }

  lemma QualifierParses(q: Option<char>, s: string)
    requires (q.Some? ==> IsQualifier(q.value)) && (s == [] || !IsQualifier(s[0]))
    ensures ParseQualifier(ShowOption(q) + s) == Parsed(q, s)
  {
    var t := ShowOption(q) + s;
    if q.Some? {
      assert t[0] == q.value && t[1..] == s;
    } else {
      assert t == s;
    }
  }

  /** How each part of a written directive begins. */
  lemma PartStarts(d: Piece, conv: string)
    requires Writable(d) && d.Directive? && conv != [] && IsConversion(conv[0])
    ensures var q := ShowOption(d.qualifier) + conv;
            var p := ShowPrecision(d.precision) + q;
            var w := ShowCount(d.width) + p;
            && !IsDigit(q[0]) && q[0] != '*' && q[0] != '.' && !IsFlag(q[0])
            && !IsDigit(p[0]) && p[0] != '*' && !IsFlag(p[0])
            && !IsFlag(w[0])
  {
    hide DigitsOf;
    var q := ShowOption(d.qualifier) + conv;
    assert q[0] == if d.qualifier.Some? then d.qualifier.value else conv[0];
    var p := ShowPrecision(d.precision) + q;
    assert p[0] == if d.precision != Absent then '.' else q[0];
    var w := ShowCount(d.width) + p;
    if d.width.Given? {
      FirstDigit(d.width.n);
      assert w[0] == DigitsOf(d.width.n, 10, false)[0];
    } else {
      assert w[0] == if d.width.FromArgs? then '*' else p[0];
    }
  }

  /** A directive spelled out, with any of the qualifiers h, l, L and Z or none, and any character behind
      it that cannot belong to the parts before, is read as that directive. */
  lemma DirectiveParses(d: Piece, s: string)
    requires d.Directive? && !d.flags.sign && !d.flags.large && d.width != Given(0)
    requires d.qualifier in [None, Some('h'), Some('l'), Some('L'), Some('Z')]
    requires d.conv.Some? && d.conv.value !in "-+ #0123456789*.hlLZ"
    ensures ParseDirective(ShowDirective(d) + s) == Parsed(d, s)
  {
    assert Writable(d);
    QualifierLetters();
    hide ParseFlags, ShowFlags, ParseCount, ShowCount, ParsePrecision, ShowPrecision, ParseQualifier, ShowOption,
      IsFlag, IsDigit, IsQualifier;
    var conv := [d.conv.value] + s;
    PartStarts(d, conv);
    var q := ShowOption(d.qualifier) + conv;
    var p := ShowPrecision(d.precision) + q;
    var w := ShowCount(d.width) + p;
    assert ShowDirective(d) + s == ShowFlags(d.flags) + w by { DirectiveText(d, s); }
    FlagsParse(d.flags, w);
    CountParses(d.width, p, Absent);
    PrecisionParses(d.precision, q);
    QualifierParses(d.qualifier, conv);
    assert conv[1..] == s;
  }

  lemma QualifierLetters()
    ensures forall c :: IsQualifier(c) <==> c == 'h' || c == 'l' || c == 'L' || c == 'Z'
  {
  }

  lemma DirectiveText(d: Piece, s: string)
    requires d.Directive? && d.conv.Some?
    ensures ShowDirective(d) + s == ShowFlags(d.flags) + (ShowCount(d.width)
            + (ShowPrecision(d.precision) + (ShowOption(d.qualifier) + ([d.conv.value] + s))))
  {
    hide ShowFlags, ShowCount, ShowPrecision;
  }

  lemma PieceParses(p: Piece, s: string)
    requires Writable(p)
    ensures Parse(ShowPiece(p) + s) == [p] + Parse(s)
  {
    hide ParseDirective, ShowDirective;
    var t := ShowPiece(p) + s;
    if p.Plain? {
      assert t[0] == p.c && t[1..] == s;
    } else {
      hide Writable;
      Assoc(['%'], ShowDirective(p), s);
      assert t[0] == '%' && t[1..] == ShowDirective(p) + s;
      DirectiveParses(p, s);
    }
  }

  /** Pieces written as a format and parsed again are the same pieces, whatever follows them. */
  lemma {:induction false} ShowParses(pieces: seq<Piece>, s: string)
    requires forall i :: 0 <= i < |pieces| ==> Writable(pieces[i])
    ensures Parse(Show(pieces) + s) == pieces + Parse(s)
  {
    hide Parse, ShowPiece, Writable;
    if pieces == [] {
      assert Show(pieces) + s == s;
    } else {
      var p, rest := pieces[0], pieces[1..];
      ShowParses(rest, s);
      Assoc(ShowPiece(p), Show(rest), s);
      assert Writable(p);
      PieceParses(p, Show(rest) + s);
      assert pieces + Parse(s) == [p] + (rest + Parse(s));
    }
  }

  /** Formats run one after the other print one after the other. */
  lemma {:induction false} RenderConcat(a: seq<Piece>, b: seq<Piece>, args: seq<Arg>)
    ensures var o := Render(a, args);
            Render(a + b, args) == if o == Mismatch then Mismatch else Prepend(o.text, Render(b, o.args))
  {
    hide RenderPiece;
    if a == [] {
      assert a + b == b;
      PrependNothing(Render(b, args));
    } else {
      assert (a + b)[0] == a[0] && (a + b)[1..] == a[1..] + b;
      var o := RenderPiece(a[0], args);
      if o != Mismatch {
        RenderConcat(a[1..], b, o.args);
        var p := Render(a[1..], o.args);
        if p != Mismatch { PrependTwice(o.text, p.text, Render(b, p.args)); }
      }
    }
  }

  lemma PrependNothing(o: Outcome)
    ensures Prepend([], o) == o
  {
    if o != Mismatch { assert [] + o.text == o.text; }
  }

  // ---------------------------------------------------------------- what the other conversions print

  /** Text of n characters behind or before the spaces that fill it up to the width. */
  ghost predicate Fills(text: string, shown: string, width: int, left: bool) {
    && |text| == (if width > |shown| then width else |shown|)
    && (left ==> text[..|shown|] == shown && Blank(text[|shown|..]))
    && (!left ==> text[|text| - |shown|..] == shown && Blank(text[..|text| - |shown|]))
  }

  lemma PaddedFills(s: string, width: int, left: bool)
    ensures Fills(Padded(s, width, left), s, width, left)
  {
    var t := Padded(s, width, left);
    if left {
      assert t[..|s|] == s;
    } else {
      assert t[|t| - |s|..] == s;
    }
  }

  /** %s shows its string, or "<NULL>", as far as a precision allows. */
  lemma StringConversion(q: Option<char>, f: Flags, width: int, precision: int, a: Arg, args: seq<Arg>)
    requires -1 <= precision && (a.Text? ==> |a.text| < TWO32)
    ensures var o := Convert(Some('s'), q, f, width, precision, [a] + args);
            if a.Text? || a.NullText? then
              var s := if a.Text? then a.text else "<NULL>";
              && o.Out? && o.args == args
              && Fills(o.text, if 0 <= precision < |s| then s[..precision] else s, width, f.left)
            else o == Mismatch
  {
    hide Padded;
    assert ([a] + args)[0] == a && ([a] + args)[1..] == args;
    var s := if a.Text? then a.text else "<NULL>";
    assert Shown(s, precision) == if 0 <= precision < |s| then s[..precision] else s;
    hide Shown, Fills;
    PaddedFills(Shown(s, precision), width, f.left);
  }

  /** %c shows its argument's low byte. */
  lemma CharConversion(q: Option<char>, f: Flags, width: int, precision: int, a: Arg, args: seq<Arg>)
    ensures var o := Convert(Some('c'), q, f, width, precision, [a] + args);
            if a.Int? then o.Out? && o.args == args && Fills(o.text, [(a.bits % 256) as char], width, f.left)
            else o == Mismatch
  {
    hide Padded, Fills;
    assert ([a] + args)[0] == a && ([a] + args)[1..] == args;
    if a.Int? { PaddedFills([(a.bits % 256) as char], width, f.left); }
  }

  /** %% is a percent sign, and so is a format that ends too early. */
  lemma PercentConversion(q: Option<char>, f: Flags, width: int, precision: int, args: seq<Arg>)
    ensures Convert(Some('%'), q, f, width, precision, args) == Out("%", args)
    ensures Convert(None, q, f, width, precision, args) == Out("%", args)
  {
  }

  /** Anything unknown shows itself. */
  lemma UnknownConversion(c: char, q: Option<char>, f: Flags, width: int, precision: int, args: seq<Arg>)
    requires c !in "csp%noxXdiu"
    ensures Convert(Some(c), q, f, width, precision, args) == Out(['%', c], args)
  {
  }

  /** The integer conversions: octal, hexadecimal in either case, and decimal, signed with d and i. */
  lemma IntegerConversions(c: char, q: Option<char>, f: Flags, width: int, precision: int, a: Arg, args: seq<Arg>)
    requires c in "oxXdiu" && !f.sign
    ensures var signed := c == 'd' || c == 'i';
            Convert(Some(c), q, f, width, precision, [a] + args)
            == if IntegerValue(q, signed, a) == None then Mismatch
               else Out(Field(IntegerValue(q, signed, a).value, if c == 'o' then 8 else if c in "xX" then 16 else 10,
                              width, precision, f.(sign := signed, large := f.large || c == 'X')), args)
  {
    hide Field, IntegerValue;
    assert ([a] + args)[0] == a && ([a] + args)[1..] == args;
    IntegerLetters(c, f);
    hide IntegerConversion;
  }

  lemma IntegerLetters(c: char, f: Flags)
    requires c in "oxXdiu"
    ensures IntegerConversion(Some(c), f)
            == Integer(if c == 'o' then 8 else if c in "xX" then 16 else 10,
                       f.(sign := f.sign || c == 'd' || c == 'i', large := f.large || c == 'X'))
    ensures c != 'c' && c != 's' && c != 'p'
  {
  }

  /** With 'L' the argument must be a long long, else a word. */
  lemma IntegerArguments(q: Option<char>, signed: bool, a: Arg)
    ensures IntegerValue(q, signed, a).Some? <==> if q == Some('L') then a.Wide? else a.Int?
  {
  }

  /** %X prints capitals, every other number is in small letters. */
  lemma LetterCase(c: char, q: Option<char>, f: Flags, width: int, precision: int, a: Arg, args: seq<Arg>)
    requires c in "oxXdiu" && !f.sign && !f.large
    requires Convert(Some(c), q, f, width, precision, [a] + args) != Mismatch
    ensures OneCase(Convert(Some(c), q, f, width, precision, [a] + args).text, c == 'X')
  {
    hide Convert, Field, OneCase, IntegerValue;
    IntegerConversions(c, q, f, width, precision, a, args);
    FieldCase(IntegerValue(q, c == 'd' || c == 'i', a).value, if c == 'o' then 8 else if c in "xX" then 16 else 10,
              width, precision, f.(sign := c == 'd' || c == 'i', large := f.large || c == 'X'));
  }

  /** A conversion that needs an argument and finds none, or one of the wrong kind, does not fit. */
  lemma ArgumentsMustFit(conv: char, q: Option<char>, f: Flags, width: int, precision: int)
    requires conv in "cspoxXdiu"
    ensures Convert(Some(conv), q, f, width, precision, []) == Mismatch
  {
  }

  /** A bare %p shows the pointer as eight lower-case hexadecimal digits. */
  lemma PlainPointer(q: Option<char>, bits: Word, args: seq<Arg>)
    ensures var o := Convert(Some('p'), q, NO_FLAGS, -1, -1, [Int(bits)] + args);
            var digits := DigitsOf(bits, 16, false);
            o.Out? && o.args == args && |o.text| == 8 && |digits| <= 8 && o.text == Repeat('0', 8 - |digits|) + digits
  {
    hide DigitsOf, Repeat;
    var args' := [Int(bits)] + args;
    assert args'[0] == Int(bits) && args'[1..] == args;
    NoRepeats();
    Pow16();
    DigitsFit(bits, 16, false, 8);
    var digits := DigitsOf(bits, 16, false);
    assert Repeat('0', -1 - |digits|) == [];
    assert [] + Repeat('0', 8 - |digits|) + [] + digits == Repeat('0', 8 - |digits|) + digits;
  }

  function Power(base: nat, k: nat): nat { if k == 0 then 1 else base * Power(base, k - 1) }

  lemma Pow16()
    ensures Power(16, 8) == TWO32
  {
    assert Power(16, 4) == 0x10000;
  }

  lemma {:induction false} DigitsFit(n: nat, base: nat, large: bool, k: nat)
    requires 2 <= base <= 36 && 0 < k && n < Power(base, k)
    ensures |DigitsOf(n, base, large)| <= k
  {
    hide DigitChar, DigitsOf, Power;
    if n < base {
      ShortDigits(n, base, large);
    } else {
      PowerStep(base, k);
      DivBound(n, base, Power(base, k - 1));
      SmallerQuotient(n, base);
      PositiveQuotient(n, base);
      FrontStep(n, base, large);
      DigitsFit(n / base, base, large, k - 1);
    }
  }

  lemma ShortDigits(n: nat, base: nat, large: bool)
    requires 2 <= base <= 36 && n < base
    ensures |DigitsOf(n, base, large)| == 1
  {
  }

  lemma PowerStep(base: nat, k: nat)
    requires 0 < k
    ensures Power(base, k) == base * Power(base, k - 1) && Power(base, 1) == base && Power(base, 0) == 1
  {
    assert Power(base, 1) == base * Power(base, 0);
  }

  /** A pointer printed in any way reads back in base 16. */
  lemma PointerReadsBack(q: Option<char>, f: Flags, width: int, precision: int, bits: Word, args: seq<Arg>,
      r: Conversion)
    requires !f.sign
    requires Converts(Convert(Some('p'), q, f, width, precision, [Int(bits)] + args).text, 16, r)
    ensures r.value == bits && r.errno == Quiet
  {
    hide Field, Converts;
    assert ([Int(bits)] + args)[0] == Int(bits);
    if width == -1 {
      PrintThenStrToUl(bits, 16, 8, precision, f.(zeropad := true), r);
    } else {
      PrintThenStrToUl(bits, 16, width, precision, f, r);
    }
  }

  // ---------------------------------------------------------------- widths and precisions

  /** A star stands for the number its argument holds: as a width a negative one means left
      justification, as a precision it means zero; the width's argument comes first. */
  lemma StarsAreNumbers(d: Piece, w: Word, p: Word, args: seq<Arg>)
    requires d.Directive?
    ensures var v := AsInt(w);
            d.width == FromArgs && d.precision != FromArgs ==>
              RenderPiece(d, [Int(w)] + args)
              == RenderPiece(d.(width := Given(if v < 0 then -v else v),
                                flags := if v < 0 then d.flags.(left := true) else d.flags), args)
    ensures var v := AsInt(p);
            d.precision == FromArgs && d.width != FromArgs ==>
              RenderPiece(d, [Int(p)] + args) == RenderPiece(d.(precision := Given(if v < 0 then 0 else v)), args)
    ensures d.width == FromArgs && d.precision == FromArgs ==>
              RenderPiece(d, [Int(w), Int(p)] + args)
              == RenderPiece(d.(precision := Given(if AsInt(p) < 0 then 0 else AsInt(p))), [Int(w)] + args)
  {
    hide Convert;
    assert ([Int(w)] + args)[0] == Int(w) && ([Int(w)] + args)[1..] == args;
    assert ([Int(p)] + args)[0] == Int(p) && ([Int(p)] + args)[1..] == args;
    var both := [Int(w), Int(p)] + args;
    assert both[0] == Int(w) && both[1..] == [Int(p)] + args;
  }

  /** Numbers in the format are width and precision; a format of one piece prints that piece. */
  lemma GivenCounts(d: Piece, w: nat, p: nat, args: seq<Arg>)
    requires d.Directive? && d.width == Given(w)
    ensures d.precision == Given(p) ==> RenderPiece(d, args) == Convert(d.conv, d.qualifier, d.flags, w, p, args)
    ensures d.precision == Absent ==> RenderPiece(d, args) == Convert(d.conv, d.qualifier, d.flags, w, -1, args)
    ensures Render([d], args) == RenderPiece(d, args)
  {
    hide Convert;
    assert [d][1..] == [];
    var o := RenderPiece(d, args);
    if o != Mismatch { assert o.text + [] == o.text; }
  }

  /** No width is a width of zero, except for pointers; no precision is one of zero for numbers. */
  lemma AbsentCounts(d: Piece, args: seq<Arg>)
    requires d.Directive?
    ensures d.width == Absent && d.conv != Some('p') ==>
              RenderPiece(d, args) == RenderPiece(d.(width := Given(0)), args)
    ensures d.precision == Absent && d.conv.Some? && d.conv.value in "poxXdiu" ==>
              RenderPiece(d, args) == RenderPiece(d.(precision := Given(0)), args)
  {
    hide Convert;
    forall f, p, rest | d.conv != Some('p')
      ensures Convert(d.conv, d.qualifier, f, -1, p, rest) == Convert(d.conv, d.qualifier, f, 0, p, rest)
    {
      NoWidth(d.conv, d.qualifier, f, p, rest);
    }
    forall f, w, rest | d.conv.Some? && d.conv.value in "poxXdiu"
      ensures Convert(d.conv, d.qualifier, f, w, -1, rest) == Convert(d.conv, d.qualifier, f, w, 0, rest)
    {
      NoPrecision(d.conv, d.qualifier, f, w, rest);
    }
  }

  lemma NoWidth(conv: Option<char>, q: Option<char>, f: Flags, precision: int, args: seq<Arg>)
    requires conv != Some('p')
    ensures Convert(conv, q, f, -1, precision, args) == Convert(conv, q, f, 0, precision, args)
  {
    hide Field, Padded;
    forall u: nat, base, g | u < TWO64 && 2 <= base <= 36
      ensures Field(u, base, -1, precision, g) == Field(u, base, 0, precision, g)
    {
      NarrowField(u, base, precision, g);
    }
    forall s, left ensures Padded(s, -1, left) == Padded(s, 0, left) { NarrowText(s, left); }
  }

  lemma NoPrecision(conv: Option<char>, q: Option<char>, f: Flags, width: int, args: seq<Arg>)
    requires conv.Some? && conv.value in "poxXdiu"
    ensures Convert(conv, q, f, width, -1, args) == Convert(conv, q, f, width, 0, args)
  {
    hide Field;
    forall u: nat, base, w, g | u < TWO64 && 2 <= base <= 36
      ensures Field(u, base, w, -1, g) == Field(u, base, w, 0, g)
    {
      ImpreciseField(u, base, w, g);
    }
  }

  lemma NarrowField(u: nat, base: nat, precision: int, f: Flags)
    requires u < TWO64 && 2 <= base <= 36
    ensures Field(u, base, -1, precision, f) == Field(u, base, 0, precision, f)
  {
    hide DigitsOf, SignOf, PrefixOf, Magnitude, Repeat;
    NoRepeats();
  }

  lemma ImpreciseField(u: nat, base: nat, width: int, f: Flags)
    requires u < TWO64 && 2 <= base <= 36
    ensures Field(u, base, width, -1, f) == Field(u, base, width, 0, f)
  {
    hide DigitsOf, SignOf, PrefixOf, Magnitude, Repeat;
    NoRepeats();
  }

  lemma NarrowText(s: string, left: bool)
    ensures Padded(s, -1, left) == Padded(s, 0, left)
  {
    NoRepeats();
  }

  // ---------------------------------------------------------------- printed integers read back

  lemma IntegerConverts(conv: Option<char>, q: Option<char>, g: Flags, f: Flags, width: int, precision: int,
      args: seq<Arg>)
    requires IntegerConversion(conv, g).Integer? && Convert(conv, q, f, width, precision, args) != Mismatch
    ensures var whole := IntegerConversion(conv, f);
            && args != [] && whole.Integer? && IntegerValue(q, whole.flags.sign, args[0]).Some?
            && Convert(conv, q, f, width, precision, args)
               == Out(Field(IntegerValue(q, whole.flags.sign, args[0]).value, whole.base, width, precision,
                            whole.flags), args[1..])
  {
    hide Field, IntegerValue;
  }

  /** The argument an integer directive prints: the last one it takes. */
  lemma PrintedArgument(d: Piece, args: seq<Arg>) returns (width: int, precision: int, f: Flags, a: Arg)
    requires d.Directive? && IntegerConversion(d.conv, d.flags).Integer? && RenderPiece(d, args) != Mismatch
    ensures var o, whole := RenderPiece(d, args), IntegerConversion(d.conv, f);
            && f.(left := false) == d.flags.(left := false)
            && |o.args| < |args| && a == args[|args| - |o.args| - 1]
            && whole.Integer? && IntegerValue(d.qualifier, whole.flags.sign, a).Some?
            && o.text == Field(IntegerValue(d.qualifier, whole.flags.sign, a).value, whole.base, width, precision,
               whole.flags)
  {
    hide Field, IntegerValue, Convert, IntegerConversion;
    var w := TakeCount(d.width, args);
    var p := TakeCount(d.precision, w.args);
    var negative := d.width == FromArgs && w.value < 0;
    f := if negative then d.flags.(left := true) else d.flags;
    width := if negative then -w.value else w.value;
    precision := if d.precision == Absent then -1 else Max(p.value, 0);
    IntegerConverts(d.conv, d.qualifier, d.flags, f, width, precision, p.args);
    a := p.args[0];
    assert p.args[1..] == RenderPiece(d, args).args;
    assert |p.args| <= |args| && p.args == args[|args| - |p.args|..];
  }

  /** w, of `modulus` values, as a signed integer. */
  function Signed(w: nat, modulus: nat): int
    requires w < modulus
  {
    if 2 * w < modulus then w else w - modulus
  }

  /** The integer a C program means by an argument: a short, an int, a long or a long long, signed or
      not; with 'Z' it is an unsigned size in either case. */
  function Meaning(qualifier: Option<char>, signed: bool, a: Arg): int
    requires IntegerValue(qualifier, signed, a).Some?
  {
    if qualifier == Some('L') then (if signed then Signed(a.wide, TWO64) else a.wide)
    else if qualifier == Some('Z') || (qualifier != Some('h') && !signed) then a.bits
    else if qualifier != Some('h') then Signed(a.bits, TWO32)
    else if signed then Signed(a.bits % 0x10000, 0x10000)
    else a.bits % 0x10000
  }

  /** What is fetched is the 64-bit pattern of what is meant. */
  lemma FetchedIsMeant(qualifier: Option<char>, signed: bool, a: Arg)
    requires IntegerValue(qualifier, signed, a).Some?
    ensures var v, u := Meaning(qualifier, signed, a), IntegerValue(qualifier, signed, a).value;
            && (if signed then -TWO63 <= v < TWO63 else 0 <= v < TWO64)
            && u == if v < 0 then TWO64 + v else v
  {
  }

  /** atoi's outcome for a printed signed integer: itself if it is an int, else its low 32 bits, else
      saturated. */
  ghost predicate AtoiReads(qualifier: Option<char>, a: Arg, r: Conversion) {
    && IntegerValue(qualifier, true, a).Some?
    && var v := Meaning(qualifier, true, a);
       && (-0x8000_0000 <= v < 0x8000_0000 ==> AsInt(r.value) == v)
       && (-ULONG_MAX <= v <= ULONG_MAX ==> r.value == v % TWO32 && r.errno == Quiet)
       && (!(-ULONG_MAX <= v <= ULONG_MAX) ==> r.value == ULONG_MAX && r.errno == ERANGE)
  }

  /** strtoul's outcome for a printed unsigned integer: itself, or saturated. */
  ghost predicate StrToUlReads(qualifier: Option<char>, a: Arg, r: Conversion) {
    && IntegerValue(qualifier, false, a).Some?
    && var v := Meaning(qualifier, false, a);
       if v > ULONG_MAX then r.value == ULONG_MAX && r.errno == ERANGE else r.value == v && r.errno == Quiet
  }

  /** An integer of any size printed with %d or %i, under any flags, width and precision, comes back
      through atoi. */
  lemma FormatThenAtoi(d: Piece, args: seq<Arg>, r: Conversion)
    requires d.Directive? && d.conv in [Some('d'), Some('i')]
    requires RenderPiece(d, args) != Mismatch && Converts(RenderPiece(d, args).text, 10, r)
    ensures var k := |args| - |RenderPiece(d, args).args| - 1;
            0 <= k < |args| && AtoiReads(d.qualifier, args[k], r)
  {
    hide RenderPiece, Field, Converts, IntegerValue, Meaning, AtoiReads;
    var width, precision, f, a := PrintedArgument(d, args);
    FieldThenAtoi(d.qualifier, a, width, precision, f.(sign := true), r);
  }

  lemma FieldThenAtoi(qualifier: Option<char>, a: Arg, width: int, precision: int, f: Flags, r: Conversion)
    requires IntegerValue(qualifier, true, a).Some? && f.sign
    requires Converts(Field(IntegerValue(qualifier, true, a).value, 10, width, precision, f), 10, r)
    ensures AtoiReads(qualifier, a, r)
  {
    hide Field, Converts, IntegerValue, Meaning;
    FetchedIsMeant(qualifier, true, a);
    PrintThenStrToUl(IntegerValue(qualifier, true, a).value, 10, width, precision, f, r);
    WordOf(Meaning(qualifier, true, a));
  }

  lemma WordOf(v: int)
    ensures 0 <= v <= ULONG_MAX ==> v % TWO32 == v
    ensures -ULONG_MAX <= v < 0 ==> v % TWO32 == TWO32 + v && Negated(-v, TWO32) == TWO32 + v
  {
  }

  /** An integer of any size printed by an unsigned conversion comes back through strtoul in the
      conversion's base. */
  lemma FormatThenStrToUl(d: Piece, args: seq<Arg>, base: nat, r: Conversion)
    requires d.Directive? && !d.flags.sign && d.conv in [Some('o'), Some('x'), Some('X'), Some('u')]
    requires base == if d.conv == Some('o') then 8 else if d.conv == Some('u') then 10 else 16
    requires RenderPiece(d, args) != Mismatch && Converts(RenderPiece(d, args).text, base, r)
    ensures var k := |args| - |RenderPiece(d, args).args| - 1;
            0 <= k < |args| && StrToUlReads(d.qualifier, args[k], r)
  {
    hide RenderPiece, Field, Converts, IntegerValue, Meaning, StrToUlReads;
    var width, precision, f, a := PrintedArgument(d, args);
    FieldThenStrToUl(d.qualifier, a, base, width, precision, IntegerConversion(d.conv, f).flags, r);
  }

  lemma FieldThenStrToUl(qualifier: Option<char>, a: Arg, base: nat, width: int, precision: int, f: Flags,
      r: Conversion)
    requires IntegerValue(qualifier, false, a).Some? && !f.sign && 2 <= base <= 36
    requires Converts(Field(IntegerValue(qualifier, false, a).value, base, width, precision, f), base, r)
    ensures StrToUlReads(qualifier, a, r)
  {
    hide Field, Converts, IntegerValue, Meaning;
    FetchedIsMeant(qualifier, false, a);
    PrintThenStrToUl(IntegerValue(qualifier, false, a).value, base, width, precision, f, r);
  }
}
