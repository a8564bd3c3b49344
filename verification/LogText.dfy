/**
 What kernel/printk.c logs and what a console shows, as functions of the text.

 A message is handled in segments: a segment ends with its first line end, or with the
 message.  A segment that starts a line is logged behind a level prefix such as "<4>".
 */
module LogText {

  const DEFAULT_LEVEL := 4
  const MAX_LEVEL := 7
  const NONE := -1

  predicate IsEol(c: char) { c == '\n' || c == '\r' }

  /** The text starts with a level prefix. */
  predicate HasLevel(t: string) {
    |t| >= 3 && t[0] == '<' && '0' <= t[1] <= '7' && t[2] == '>'
  }

  function LevelOf(t: string): int
    requires HasLevel(t)
  {
    t[1] as int - '0' as int
  }

  function Prefix(level: int): string
    requires 0 <= level <= MAX_LEVEL
  {
    ['<', (level + '0' as int) as char, '>']
  }

  // ---------------------------------------------------------------- segments

  /** Length of the first segment: up to and including the first line end. */
  function FirstSegment(t: string): (n: nat)
    ensures n <= |t| && (t != [] ==> 0 < n)
    ensures forall i :: 0 <= i < n - 1 ==> !IsEol(t[i])
    ensures n < |t| ==> IsEol(t[n - 1])
  {
    if t == [] then 0 else if IsEol(t[0]) then 1 else 1 + FirstSegment(t[1..])
  }

  function Segments(t: string): seq<string>
    decreases |t|
  {
    if t == [] then [] else [t[..FirstSegment(t)]] + Segments(t[FirstSegment(t)..])
  }

  predicate EndsLine(seg: string) { seg != [] && IsEol(seg[|seg| - 1]) }

  ghost predicate IsSegment(seg: string) {
    seg != [] && forall i :: 0 <= i < |seg| - 1 ==> !IsEol(seg[i])
  }

  ghost predicate AreSegments(segs: seq<string>) {
    forall i :: 0 <= i < |segs| ==> IsSegment(segs[i])
  }

  // ---------------------------------------------------------------- live output

  /** The level a segment is printed at, when the last line ended (level NONE) or goes on. */
  function SegLevel(v: int, seg: string): int {
    if v >= 0 then v else if HasLevel(seg) then LevelOf(seg) else DEFAULT_LEVEL
  }

  /** The part of a segment consoles get to see. */
  function SegBody(v: int, seg: string): string {
    if v < 0 && HasLevel(seg) then seg[3..] else seg
  }

  /** What goes into the log. */
  function SegLogged(v: int, seg: string): string
    requires v <= MAX_LEVEL
  {
    if v < 0 then Prefix(SegLevel(v, seg)) + SegBody(v, seg) else seg
  }

  function SegShown(v: int, seg: string, loglevel: int): string {
    if SegLevel(v, seg) <= loglevel then SegBody(v, seg) else []
  }

  function SegNext(v: int, seg: string): int {
    if EndsLine(seg) then NONE else SegLevel(v, seg)
  }

  /** Segments one after the other: the log, one console's output, the level at the end. */
  function Logged(v: int, segs: seq<string>): string
    requires v <= MAX_LEVEL
    decreases segs
  {
    if segs == [] then [] else SegLogged(v, segs[0]) + Logged(SegNext(v, segs[0]), segs[1..])
  }

  function Shown(v: int, segs: seq<string>, loglevel: int): string
    decreases segs
  {
    if segs == [] then [] else SegShown(v, segs[0], loglevel) + Shown(SegNext(v, segs[0]), segs[1..], loglevel)
  }

  function Next(v: int, segs: seq<string>): (r: int)
    ensures v <= MAX_LEVEL ==> r <= MAX_LEVEL
    decreases segs
  {
    if segs == [] then v else Next(SegNext(v, segs[0]), segs[1..])
  }

  // ---------------------------------------------------------------- one line

  /** A text without line ends. */
  predicate OneLine(t: string) { forall i :: 0 <= i < |t| ==> t[i] != '\n' && t[i] != '\r' }

  predicate NoPrefix(t: string) { |t| < 3 || t[0] != '<' || t[1] !in "01234567" || t[2] != '>' }

  /** A line without a prefix is of level 4: it is logged behind "<4>" and shown by consoles of level 4
      and up. */
  lemma PlainLine(t: string, loglevel: int)
    requires OneLine(t) && NoPrefix(t + "\n")
    ensures Segments(t + "\n") == [t + "\n"]
    ensures Logged(NONE, [t + "\n"]) == "<4>" + t + "\n" && Next(NONE, [t + "\n"]) == NONE
    ensures Shown(NONE, [t + "\n"], loglevel) == if loglevel >= 4 then t + "\n" else ""
  {
    var seg := t + "\n";
    OneSegment(t, '\n');
    assert [seg][1..] == [];
    assert !HasLevel(seg);
    assert Prefix(4) == "<4>";
    assert seg + [] == seg;
  }

  /** A line with a prefix has the level of its digit, is logged as it is, and shown without the prefix by
      consoles of that level and up. */
  lemma PrefixedLine(digit: char, t: string, loglevel: int)
    requires '0' <= digit <= '7' && OneLine(t)
    ensures var line := ['<', digit, '>'] + t + "\n";
            && Segments(line) == [line] && Logged(NONE, [line]) == line && Next(NONE, [line]) == NONE
            && Shown(NONE, [line], loglevel) == if loglevel >= digit as int - '0' as int then t + "\n" else ""
  {
    var line := ['<', digit, '>'] + t + "\n";
    OneSegment(['<', digit, '>'] + t, '\n');
    assert HasLevel(line) && LevelOf(line) == digit as int - '0' as int;
    assert Prefix(LevelOf(line)) == ['<', digit, '>'];
    assert line[3..] == t + "\n";
    assert Prefix(LevelOf(line)) + line[3..] == line;
    Single(line);
    assert line + [] == line && line[3..] + [] == line[3..];
  }

  /** A message without a line end leaves its line open: what is printed next goes on at its level, and a
      return ends a line as a newline does. */
  lemma OpenLine(digit: char, t: string, end: char, loglevel: int)
    requires '0' <= digit <= '7' && OneLine(t) && t != [] && end in "\n\r"
    ensures var v := digit as int - '0' as int;
            && Next(NONE, [['<', digit, '>'] + t]) == v
            && Next(v, [t]) == v && Next(v, [t + [end]]) == NONE
            && Logged(v, [t]) == t && Shown(v, [t], loglevel) == if loglevel >= v then t else ""
  {
    var seg := ['<', digit, '>'] + t;
    assert HasLevel(seg) && LevelOf(seg) == digit as int - '0' as int;
    assert seg[|seg| - 1] == t[|t| - 1];
    Single(seg);
    Single(t);
    Single(t + [end]);
    assert t + [] == t;
  }

  lemma Single(s: string)
    ensures [s][1..] == []
  {
  }

  lemma {:induction false} OneSegment(t: string, end: char)
    requires OneLine(t) && end in "\n\r"
    ensures FirstSegment(t + [end]) == |t| + 1 && Segments(t + [end]) == [t + [end]]
  {
    var s := t + [end];
    var n := FirstSegment(s);
    assert forall i :: 0 <= i < |t| ==> s[i] == t[i];
    assert n == |s|;
    assert s[..n] == s && s[n..] == [];
  }

  // ---------------------------------------------------------------- replay

  /** The rest of a line whose prefix is lost counts as level 4. */
  lemma ReplayWithoutPrefix(t: string, log: string, loglevel: int)
    requires NoPrefix(t + "\n" + log) && OneLine(t)
    ensures Replay(NONE, t + "\n" + log, loglevel)
            == (if loglevel >= 4 then t + "\n" else "") + Replay(NONE, log, loglevel)
  {
    var line := t + "\n";
    assert !HasLevel(line + log);
    ReplayLine(4, line, log, loglevel);
    assert EndsWith(line, '\n');
  }

  /** What register_console's parser shows of logged text: it takes a prefix off at the start
      and after each '\n', and filters by it. */
  function Replay(u: int, log: string, loglevel: int): string
    decreases |log|, -u
  {
    if log == [] then []
    else if u < 0 then
      if HasLevel(log) then Replay(LevelOf(log), log[3..], loglevel) else Replay(DEFAULT_LEVEL, log, loglevel)
    else
      (if u <= loglevel then [log[0]] else []) + Replay(if log[0] == '\n' then NONE else u, log[1..], loglevel)
  }

  // ---------------------------------------------------------------- histories

  lemma {:induction false} SegmentsAreSegments(t: string)
    ensures AreSegments(Segments(t)) && Flatten(Segments(t)) == t
    decreases |t|
  {
    hide FirstSegment;
    if t != [] {
      var n := FirstSegment(t);
      var seg, tail := t[..n], Segments(t[n..]);
      SegmentsAreSegments(t[n..]);
      assert IsSegment(seg);
      assert forall i :: 0 < i < |[seg] + tail| ==> ([seg] + tail)[i] == tail[i - 1];
      assert ([seg] + tail)[1..] == tail;
      assert t == seg + t[n..];
    }
  }

  function Flatten(segs: seq<string>): string {
    if segs == [] then [] else segs[0] + Flatten(segs[1..])
  }

  lemma NextRange(v: int, seg: string)
    requires v <= MAX_LEVEL
    ensures NONE <= SegNext(v, seg) <= MAX_LEVEL
  {
  }

  /** Printing more continues where the history so far has led: the level ... */
  lemma {:induction false} NextConcat(v: int, a: seq<string>, b: seq<string>)
    ensures Next(v, a + b) == Next(Next(v, a), b)
    decreases a
  {
    hide SegNext;
    if a == [] {
      assert a + b == b;
    } else {
      assert (a + b)[0] == a[0] && (a + b)[1..] == a[1..] + b;
      NextConcat(SegNext(v, a[0]), a[1..], b);
    }
  }

  /** ... the log ... */
  lemma {:induction false} LoggedConcat(v: int, a: seq<string>, b: seq<string>)
    requires v <= MAX_LEVEL
    ensures Logged(v, a + b) == Logged(v, a) + Logged(Next(v, a), b)
    decreases a
  {
    hide SegLogged, SegNext;
    if a == [] {
      assert a + b == b;
    } else {
      NextRange(v, a[0]);
      assert (a + b)[0] == a[0] && (a + b)[1..] == a[1..] + b;
      LoggedConcat(SegNext(v, a[0]), a[1..], b);
    }
  }

  /** ... and a console's output. */
  lemma {:induction false} ShownConcat(v: int, a: seq<string>, b: seq<string>, loglevel: int)
    ensures Shown(v, a + b, loglevel) == Shown(v, a, loglevel) + Shown(Next(v, a), b, loglevel)
    decreases a
  {
    hide SegShown, SegNext;
    if a == [] {
      assert a + b == b;
    } else {
      assert (a + b)[0] == a[0] && (a + b)[1..] == a[1..] + b;
      ShownConcat(SegNext(v, a[0]), a[1..], b, loglevel);
    }
  }

  // ---------------------------------------------------------------- replay agrees with live output

  /** No carriage return is followed by more text. */
  ghost predicate NoInteriorReturn(segs: seq<string>) {
    forall i :: 0 <= i < |segs| - 1 ==> !EndsWith(segs[i], '\r')
  }

  predicate EndsWith(seg: string, c: char) { seg != [] && seg[|seg| - 1] == c }

  /** Within a line the parser only filters. */
  lemma {:induction false} ReplayLine(u: int, body: string, rest: string, loglevel: int)
    requires 0 <= u && forall i :: 0 <= i < |body| - 1 ==> body[i] != '\n'
    ensures Replay(u, body + rest, loglevel)
            == (if u <= loglevel then body else []) + Replay(if EndsWith(body, '\n') then NONE else u, rest, loglevel)
    decreases |body|
  {
    if body == [] {
      assert body + rest == rest;
    } else {
      var log := body + rest;
      assert log[0] == body[0] && log[1..] == body[1..] + rest;
      if |body| > 1 {
        ReplayLine(u, body[1..], rest, loglevel);
        assert body == [body[0]] + body[1..];
      } else {
        assert body == [body[0]] && body[1..] + rest == rest;
      }
    }
  }

  lemma PrefixParses(level: int, rest: string)
    requires 0 <= level <= MAX_LEVEL
    ensures var log := Prefix(level) + rest;
            HasLevel(log) && LevelOf(log) == level && log[3..] == rest
  {
  }

  lemma SegLevelRange(v: int, seg: string)
    requires v <= MAX_LEVEL
    ensures 0 <= SegLevel(v, seg) <= MAX_LEVEL
  {
  }

  /** The body of a segment ends a line exactly when the segment does. */
  lemma BodyEnds(v: int, seg: string)
    requires IsSegment(seg)
    ensures var body := SegBody(v, seg);
            && (forall i :: 0 <= i < |body| - 1 ==> !IsEol(body[i]))
            && (EndsWith(body, '\n') <==> EndsWith(seg, '\n'))
            && (EndsWith(body, '\r') <==> EndsWith(seg, '\r'))
  {
    var body := SegBody(v, seg);
    if v < 0 && HasLevel(seg) {
      assert forall i :: 0 <= i < |body| ==> body[i] == seg[i + 3];
    }
  }

  /** One segment: the parser, in step with printk, shows exactly what printk showed, and is
      in step again unless the segment ended with a carriage return. */
  lemma ReplaySegment(v: int, seg: string, rest: string, loglevel: int)
    requires v <= MAX_LEVEL && IsSegment(seg)
    ensures Replay(v, SegLogged(v, seg) + rest, loglevel)
            == SegShown(v, seg, loglevel)
               + Replay(if EndsWith(seg, '\n') then NONE else SegLevel(v, seg), rest, loglevel)
  {
    var level, body := SegLevel(v, seg), SegBody(v, seg);
    SegLevelRange(v, seg);
    BodyEnds(v, seg);
    ReplayLine(level, body, rest, loglevel);
    if v < 0 {
      assert SegLogged(v, seg) + rest == Prefix(level) + (body + rest);
      PrefixParses(level, body + rest);
    }
  }

  /** Replay agrees with live output: without a carriage return inside the text, a console that
      parses the whole log shows exactly what it would have shown had it been there from the start. */
  lemma {:induction false} ReplayAgrees(v: int, segs: seq<string>, loglevel: int)
    requires v <= MAX_LEVEL && AreSegments(segs) && NoInteriorReturn(segs)
    ensures Replay(v, Logged(v, segs), loglevel) == Shown(v, segs, loglevel)
    decreases segs
  {
    if segs != [] {
      var next := SegNext(v, segs[0]);
      assert IsSegment(segs[0]);
      assert forall i :: 0 <= i < |segs[1..]| ==> segs[1..][i] == segs[i + 1];
      ReplaySegment(v, segs[0], Logged(next, segs[1..]), loglevel);
      ReplayAgrees(next, segs[1..], loglevel);
      if |segs| > 1 {
        assert !EndsWith(segs[0], '\r');
      }
    }
  }

  // ---------------------------------------------------------------- exactly when they agree

  /** Prefixes a parser takes for text: those of segments that start a line for printk but, after
      a carriage return, not for the parser. */
  function Strays(expecting: bool, starting: bool, segs: seq<string>): nat
    decreases segs
  {
    if segs == [] then 0
    else (if starting && !expecting then 1 else 0) + Strays(EndsWith(segs[0], '\n'), EndsLine(segs[0]), segs[1..])
  }

  lemma {:induction false} StraysZero(expecting: bool, starting: bool, segs: seq<string>)
    requires AreSegments(segs)
    ensures Strays(expecting, starting, segs) == 0
            <==> (segs == [] || !starting || expecting) && NoInteriorReturn(segs)
    decreases segs
  {
    if segs != [] {
      var tail := segs[1..];
      assert forall i :: 0 <= i < |tail| ==> tail[i] == segs[i + 1];
      StraysZero(EndsWith(segs[0], '\n'), EndsLine(segs[0]), tail);
      if NoInteriorReturn(segs) {
        forall i | 0 <= i < |tail| - 1
          ensures !EndsWith(tail[i], '\r')
        {
          assert tail[i] == segs[i + 1];
        }
      }
      if NoInteriorReturn(tail) && (tail == [] || !EndsWith(segs[0], '\r')) {
        forall i | 0 <= i < |segs| - 1
          ensures !EndsWith(segs[i], '\r')
        {
          if i > 0 { assert segs[i] == tail[i - 1]; }
        }
      }
    }
  }

  /** On a console that shows every level, a stray prefix costs three characters. */
  lemma {:induction false} ReplayLength(u: int, v: int, segs: seq<string>, loglevel: int)
    requires u <= MAX_LEVEL && v <= MAX_LEVEL <= loglevel && (u < 0 ==> v < 0) && AreSegments(segs)
    ensures |Replay(u, Logged(v, segs), loglevel)| == |Shown(v, segs, loglevel)| + 3 * Strays(u < 0, v < 0, segs)
    decreases segs
  {
    if segs != [] {
      var seg, tail := segs[0], segs[1..];
      var next := SegNext(v, seg);
      var rest := Logged(next, tail);
      assert IsSegment(seg);
      assert forall i :: 0 <= i < |tail| ==> tail[i] == segs[i + 1];
      SegLevelRange(v, seg);
      BodyEnds(v, seg);
      var after := if EndsWith(seg, '\n') then NONE else if u < 0 then SegLevel(v, seg) else u;
      ReplayLength(after, next, tail, loglevel);
      if u < 0 {
        ReplaySegment(v, seg, rest, loglevel);
      } else {
        var text := SegLogged(v, seg);
        StrayText(v, seg);
        ReplayLine(u, text, rest, loglevel);
      }
    }
  }

  lemma StrayText(v: int, seg: string)
    requires v <= MAX_LEVEL && IsSegment(seg)
    ensures var text := SegLogged(v, seg);
            && (forall i :: 0 <= i < |text| - 1 ==> text[i] != '\n')
            && (EndsWith(text, '\n') <==> EndsWith(seg, '\n'))
            && |text| == |SegBody(v, seg)| + if v < 0 then 3 else 0
  {
    SegLevelRange(v, seg);
    BodyEnds(v, seg);
    var text, body := SegLogged(v, seg), SegBody(v, seg);
    if v < 0 {
      assert forall i :: 0 <= i < |body| ==> text[i + 3] == body[i];
      assert forall i :: 0 <= i < 3 ==> text[i] != '\n';
    }
  }

  /** For a console that shows every level, agreement holds if and only if no carriage return is
      followed by more text. */
  lemma ReplayAgreesIff(segs: seq<string>, loglevel: int)
    requires AreSegments(segs) && MAX_LEVEL <= loglevel
    ensures Replay(NONE, Logged(NONE, segs), loglevel) == Shown(NONE, segs, loglevel) <==> NoInteriorReturn(segs)
  {
    ReplayLength(NONE, NONE, segs, loglevel);
    StraysZero(true, true, segs);
    if NoInteriorReturn(segs) {
      ReplayAgrees(NONE, segs, loglevel);
    }
  }

  /** A console of any level is safe exactly under that condition: without it, one of level 7 sees
      something else. */
  lemma ReplayAgreesAtAllLevelsIff(segs: seq<string>)
    requires AreSegments(segs)
    ensures (forall loglevel :: Replay(NONE, Logged(NONE, segs), loglevel) == Shown(NONE, segs, loglevel))
            <==> NoInteriorReturn(segs)
  {
    hide Replay, Logged, Shown, NoInteriorReturn;
    if NoInteriorReturn(segs) {
      forall loglevel: int
        ensures Replay(NONE, Logged(NONE, segs), loglevel) == Shown(NONE, segs, loglevel)
      {
        ReplayAgrees(NONE, segs, loglevel);
      }
    } else {
      ReplayAgreesIff(segs, MAX_LEVEL);
      assert Replay(NONE, Logged(NONE, segs), MAX_LEVEL) != Shown(NONE, segs, MAX_LEVEL);
    }
  }

  /** The shortest failure: the second line's prefix is shown as text. */
  lemma ReturnWitness(segs: seq<string>)
    requires segs == ["a\r", "b\n"]
    ensures AreSegments(segs) && Replay(NONE, Logged(NONE, segs), 7) != Shown(NONE, segs, 7)
  {
    assert EndsWith(segs[0], '\r') && !NoInteriorReturn(segs);
    ReplayAgreesIff(segs, 7);
  }

  // ---------------------------------------------------------------- one level, at every moment

  /** What the parser shows of one segment's log text, and the level it goes on with. */
  function PartShown(u: int, v: int, seg: string, loglevel: int): string
    requires v <= MAX_LEVEL
  {
    if u < 0 then SegShown(v, seg, loglevel) else if u <= loglevel then SegLogged(v, seg) else []
  }

  function PartNext(u: int, v: int, seg: string): int {
    if EndsWith(seg, '\n') then NONE else if u < 0 then SegLevel(v, seg) else u
  }

  lemma ReplayPart(u: int, v: int, seg: string, rest: string, loglevel: int)
    requires v <= MAX_LEVEL && IsSegment(seg) && (u < 0 ==> v < 0)
    ensures Replay(u, SegLogged(v, seg) + rest, loglevel)
            == PartShown(u, v, seg, loglevel) + Replay(PartNext(u, v, seg), rest, loglevel)
  {
    if u < 0 {
      ReplayNegative(u, SegLogged(v, seg) + rest, loglevel);
      ReplayNegative(v, SegLogged(v, seg) + rest, loglevel);
      ReplaySegment(v, seg, rest, loglevel);
    } else {
      StrayText(v, seg);
      ReplayLine(u, SegLogged(v, seg), rest, loglevel);
    }
  }

  lemma ReplayNegative(u: int, log: string, loglevel: int)
    requires u < 0
    ensures Replay(u, log, loglevel) == Replay(NONE, log, loglevel)
  {
  }

  /** The parser, started at u, shows of every initial part of the segments what printk, started at
      v, has shown of it: a console may register after any segment. */
  ghost predicate AgreesThroughout(u: int, v: int, segs: seq<string>, loglevel: int)
    requires v <= MAX_LEVEL
  {
    forall k :: 0 <= k <= |segs| ==> AgreesAt(u, v, segs, loglevel, k)
  }

  predicate AgreesAt(u: int, v: int, segs: seq<string>, loglevel: int, k: nat)
    requires v <= MAX_LEVEL && k <= |segs|
  {
    Replay(u, Logged(v, segs[..k]), loglevel) == Shown(v, segs[..k], loglevel)
  }

  /** Wherever a line follows a carriage return, both that line and the one with the return are
      too unimportant for the console, unless only a bare level prefix follows. */
  predicate ReturnsHidden(v: int, segs: seq<string>, loglevel: int)
    decreases segs
  {
    |segs| >= 2 ==>
      && var next := SegNext(v, segs[0]);
         && (EndsWith(segs[0], '\r') ==> SegLevel(v, segs[0]) > loglevel && Unseen(next, segs[1..], loglevel))
         && ReturnsHidden(next, segs[1..], loglevel)
  }

  predicate Unseen(v: int, segs: seq<string>, loglevel: int)
    requires segs != []
  {
    SegLevel(v, segs[0]) > loglevel || (|segs| == 1 && SegBody(v, segs[0]) == [])
  }

  lemma AgreesNext(u: int, v: int, segs: seq<string>, loglevel: int, k: nat)
    requires v <= MAX_LEVEL && segs != [] && IsSegment(segs[0]) && (u < 0 ==> v < 0) && k < |segs|
    ensures var seg := segs[0];
            && SegNext(v, seg) <= MAX_LEVEL
            && (PartShown(u, v, seg, loglevel) == SegShown(v, seg, loglevel) ==>
                  (AgreesAt(u, v, segs, loglevel, k + 1)
                   <==> AgreesAt(PartNext(u, v, seg), SegNext(v, seg), segs[1..], loglevel, k)))
            && (PartShown(u, v, seg, loglevel) != SegShown(v, seg, loglevel) && k == 0 ==>
                  !AgreesAt(u, v, segs, loglevel, 1))
  {
    hide PartShown, SegLogged, SegShown, Replay, PartNext, SegNext;
    var seg, rest := segs[0], segs[1..][..k];
    NextRange(v, seg);
    var v' := SegNext(v, seg);
    assert segs[..k + 1][0] == seg && segs[..k + 1][1..] == rest;
    ReplayPart(u, v, seg, Logged(v', rest), loglevel);
    var replayed, shown := Replay(PartNext(u, v, seg), Logged(v', rest), loglevel), Shown(v', rest, loglevel);
    SameStart(SegShown(v, seg, loglevel), replayed, shown);
    if k == 0 {
      NothingShown(PartNext(u, v, seg), v', loglevel);
      assert rest == [];
      Bare(PartShown(u, v, seg, loglevel));
      Bare(SegShown(v, seg, loglevel));
    }
  }

  /** Agreement throughout is agreement on each segment in turn. */
  lemma AgreesStep(u: int, v: int, segs: seq<string>, loglevel: int)
    requires v <= MAX_LEVEL && segs != [] && IsSegment(segs[0]) && (u < 0 ==> v < 0)
    ensures SegNext(v, segs[0]) <= MAX_LEVEL
    ensures AgreesThroughout(u, v, segs, loglevel) <==>
              && PartShown(u, v, segs[0], loglevel) == SegShown(v, segs[0], loglevel)
              && AgreesThroughout(PartNext(u, v, segs[0]), SegNext(v, segs[0]), segs[1..], loglevel)
  {
    hide PartShown, SegShown, PartNext, SegNext, AgreesAt, IsSegment;
    var seg, tail := segs[0], segs[1..];
    NextRange(v, seg);
    var u', v' := PartNext(u, v, seg), SegNext(v, seg);
    forall k: nat | k < |segs|
      ensures PartShown(u, v, seg, loglevel) == SegShown(v, seg, loglevel) ==>
                (AgreesAt(u, v, segs, loglevel, k + 1) <==> AgreesAt(u', v', tail, loglevel, k))
    {
      AgreesNext(u, v, segs, loglevel, k);
    }
    AgreesNext(u, v, segs, loglevel, 0);
    assert AgreesAt(u, v, segs, loglevel, 0) by { AgreesAtStart(u, v, segs, loglevel); }
    if PartShown(u, v, seg, loglevel) == SegShown(v, seg, loglevel) {
      if AgreesThroughout(u', v', tail, loglevel) {
        forall k | 0 <= k <= |segs| ensures AgreesAt(u, v, segs, loglevel, k) {
          if k > 0 { assert AgreesAt(u', v', tail, loglevel, k - 1) ==> AgreesAt(u, v, segs, loglevel, k - 1 + 1); }
        }
      }
      if AgreesThroughout(u, v, segs, loglevel) {
        forall k | 0 <= k <= |tail| ensures AgreesAt(u', v', tail, loglevel, k) {
          assert AgreesAt(u, v, segs, loglevel, k + 1);
        }
      }
    }
  }

  lemma AgreesAtStart(u: int, v: int, segs: seq<string>, loglevel: int)
    requires v <= MAX_LEVEL
    ensures AgreesAt(u, v, segs, loglevel, 0)
  {
    assert segs[..0] == [];
  }

  /** When a segment's part agrees: always for a parser at the start of a line; in a line that goes
      on, if both levels are on the same side; for a stray line, only if nothing is seen of it. */
  lemma PartAgrees(u: int, v: int, seg: string, loglevel: int)
    requires v <= MAX_LEVEL && IsSegment(seg) && (u < 0 ==> v < 0)
    ensures PartShown(u, v, seg, loglevel) == SegShown(v, seg, loglevel) <==>
              || u < 0
              || (v >= 0 && (u <= loglevel <==> v <= loglevel))
              || (v < 0 && u > loglevel && (SegLevel(v, seg) > loglevel || SegBody(v, seg) == []))
  {
    SegLevelRange(v, seg);
    if u >= 0 && v < 0 {
      assert |SegLogged(v, seg)| == 3 + |SegBody(v, seg)|;
    }
  }

  /** Exactly when a console of a given level sees, whenever it registers, what it would have seen
      live.  The first equivalence is for a parser in step with printk, the second for one that has
      missed a line start. */
  lemma {:induction false} AgreesThroughoutIff(u: int, v: int, segs: seq<string>, loglevel: int)
    requires v <= MAX_LEVEL && AreSegments(segs) && (u < 0 ==> v < 0)
    ensures u < 0 || (v >= 0 && (u <= loglevel <==> v <= loglevel)) ==>
              (AgreesThroughout(u, v, segs, loglevel) <==> ReturnsHidden(v, segs, loglevel))
    ensures u >= 0 && v < 0 && segs != [] ==>
              (AgreesThroughout(u, v, segs, loglevel)
               <==> u > loglevel && Unseen(v, segs, loglevel) && ReturnsHidden(v, segs, loglevel))
    ensures u >= 0 && v >= 0 && segs != [] && !(u <= loglevel <==> v <= loglevel) ==>
              !AgreesThroughout(u, v, segs, loglevel)
    decreases segs
  {
    hide AgreesThroughout, PartShown, SegShown, SegBody, IsSegment;
    if segs == [] {
      AgreesWithNothing(u, v, loglevel);
    } else {
      FirstIsSegment(segs);
      var seg, tail := segs[0], segs[1..];
      AgreesStep(u, v, segs, loglevel);
      PartAgrees(u, v, seg, loglevel);
      SegLevelRange(v, seg);
      AgreesThroughoutIff(PartNext(u, v, seg), SegNext(v, seg), tail, loglevel);
      EmptyBody(v, seg);
      if tail == [] { AgreesWithNothing(PartNext(u, v, seg), SegNext(v, seg), loglevel); }
    }
  }

  /** For one console level: replay agrees with live output at every moment of the history if and only
      if no carriage return with a line behind it, nor that line, is visible at this level. */
  lemma ReplayAlwaysAgreesIff(segs: seq<string>, loglevel: int)
    requires AreSegments(segs)
    ensures AgreesThroughout(NONE, NONE, segs, loglevel) <==> ReturnsHidden(NONE, segs, loglevel)
    ensures ReturnsHidden(NONE, segs, loglevel) ==>
            Replay(NONE, Logged(NONE, segs), loglevel) == Shown(NONE, segs, loglevel)
  {
    hide ReturnsHidden, Replay, Logged, Shown;
    AgreesThroughoutIff(NONE, NONE, segs, loglevel);
    if ReturnsHidden(NONE, segs, loglevel) {
      assert AgreesAt(NONE, NONE, segs, loglevel, |segs|);
      assert segs[..|segs|] == segs;
    }
  }

  lemma AgreesWithNothing(u: int, v: int, loglevel: int)
    requires v <= MAX_LEVEL
    ensures AgreesThroughout(u, v, [], loglevel)
  {
    AgreesAtStart(u, v, [], loglevel);
  }

  // ---------------------------------------------------------------- a log that has lost its beginning

  /** A newline brings the parser back into step, whatever came before. */
  lemma {:induction false} ReplayAfterNewline(u: int, a: string, b: string, loglevel: int)
    requires EndsWith(a, '\n')
    ensures Replay(u, a + b, loglevel) == Replay(u, a, loglevel) + Replay(NONE, b, loglevel)
    decreases |a|, -u
  {
    var log := a + b;
    if u < 0 {
      if HasLevel(a) {
        assert HasLevel(log) && log[3..] == a[3..] + b;
        ReplayAfterNewline(LevelOf(a), a[3..], b, loglevel);
      } else {
        assert !HasLevel(log) by { assert log[|a| - 1] == '\n'; }
        ReplayAfterNewline(DEFAULT_LEVEL, a, b, loglevel);
      }
    } else {
      assert log[0] == a[0] && log[1..] == a[1..] + b;
      if |a| > 1 {
        ReplayAfterNewline(if a[0] == '\n' then NONE else u, a[1..], b, loglevel);
      } else {
        assert a == ['\n'] && a[1..] == [] && [] + b == b;
        assert Replay(NONE, [], loglevel) == [];
      }
    }
  }

  /** Behind a newline the log is the log of the segments still to come. */
  lemma {:induction false} LoggedBehindNewline(v: int, segs: seq<string>, k: nat) returns (m: nat)
    requires v <= MAX_LEVEL && AreSegments(segs) && 0 < k <= |Logged(v, segs)| && Logged(v, segs)[k - 1] == '\n'
    ensures m <= |segs| && Logged(v, segs)[k..] == Logged(NONE, segs[m..])
    decreases segs
  {
    hide SegLogged;
    FirstIsSegment(segs);
    var seg, tail := segs[0], segs[1..];
    var text, next := SegLogged(v, seg), SegNext(v, seg);
    NextRange(v, seg);
    StrayText(v, seg);
    if k <= |text| {
      assert text[k - 1] == '\n';
      assert k == |text| && EndsWith(seg, '\n');
      m := 1;
    } else {
      assert Logged(v, segs)[k - 1] == Logged(next, tail)[k - |text| - 1];
      m := LoggedBehindNewline(next, tail, k - |text|);
      assert tail[m..] == segs[m + 1..];
      assert Logged(v, segs)[k..] == Logged(next, tail)[k - |text|..];
      m := m + 1;
    }
  }

  /** From the newline at p on, replay of a log equals live output of the segments behind it, where
      those hide their returns. */
  ghost predicate CatchesUp(segs: seq<string>, log: string, p: nat, loglevel: int)
    requires p < |log|
  {
    exists m :: 0 <= m <= |segs| && log[p + 1..] == Logged(NONE, segs[m..])
                && (ReturnsHidden(NONE, segs[m..], loglevel) ==>
                      Replay(NONE, log, loglevel)
                        == Replay(NONE, log[..p + 1], loglevel) + Shown(NONE, segs[m..], loglevel))
  }

  /** However much of the log is lost, every newline kept in it is such a point. */
  lemma ReplayOfTail(segs: seq<string>, from: nat, p: nat, loglevel: int)
    requires AreSegments(segs) && from + p < |Logged(NONE, segs)| && Logged(NONE, segs)[from + p] == '\n'
    ensures CatchesUp(segs, Logged(NONE, segs)[from..], p, loglevel)
  {
    hide Replay, Logged, Shown, ReturnsHidden, AreSegments;
    var all := Logged(NONE, segs);
    var log := all[from..];
    var m := LoggedBehindNewline(NONE, segs, from + p + 1);
    var head, rest := log[..p + 1], log[p + 1..];
    assert rest == all[from + p + 1..] && log == head + rest;
    ReplayAfterNewline(NONE, head, rest, loglevel);
    assert AreSegments(segs[m..]) by { TailSegments(segs, m); }
    ReplayAlwaysAgreesIff(segs[m..], loglevel);
  }

  lemma TailSegments(segs: seq<string>, m: nat)
    requires AreSegments(segs) && m <= |segs|
    ensures AreSegments(segs[m..])
  {
  }

  lemma EmptyBody(v: int, seg: string)
    requires IsSegment(seg)
    ensures SegBody(v, seg) == [] ==> !EndsLine(seg) && !EndsWith(seg, '\n') && !EndsWith(seg, '\r')
  {
  }

  lemma FirstIsSegment(segs: seq<string>)
    requires AreSegments(segs) && segs != []
    ensures IsSegment(segs[0]) && AreSegments(segs[1..])
  {
    assert forall i :: 0 <= i < |segs[1..]| ==> segs[1..][i] == segs[i + 1];
  }

  lemma NothingShown(u: int, v: int, loglevel: int)
    requires v <= MAX_LEVEL
    ensures Logged(v, []) == [] && Shown(v, [], loglevel) == [] && Replay(u, [], loglevel) == []
  {
  }

  lemma SameStart(a: string, b: string, c: string)
    ensures a + b == a + c <==> b == c
  {
    if a + b == a + c { assert b == (a + b)[|a|..] && c == (a + c)[|a|..]; }
  }

  lemma Bare(a: string)
    ensures a + [] == a
  {
  }

  /** The condition in terms of the text: a return that is not the very last character. */
  lemma {:induction false} InteriorReturnInText(segs: seq<string>)
    requires AreSegments(segs)
    ensures NoInteriorReturn(segs) <==> forall i :: 0 <= i < |Flatten(segs)| - 1 ==> Flatten(segs)[i] != '\r'
    ensures segs != [] ==> Flatten(segs) != []
  {
    if segs != [] {
      var seg, tail := segs[0], segs[1..];
      assert IsSegment(seg);
      assert forall i :: 0 <= i < |tail| ==> tail[i] == segs[i + 1];
      InteriorReturnInText(tail);
      var t, u := Flatten(segs), Flatten(tail);
      assert forall i :: 0 <= i < |u| ==> t[|seg| + i] == u[i];
      if NoInteriorReturn(segs) {
        forall i | 0 <= i < |tail| - 1
          ensures !EndsWith(tail[i], '\r')
        {
          assert !EndsWith(segs[i + 1], '\r');
        }
        assert tail != [] ==> !EndsWith(segs[0], '\r');
        forall i | 0 <= i < |t| - 1
          ensures t[i] != '\r'
        {
          if i >= |seg| { assert t[i] == u[i - |seg|]; } else { assert t[i] == seg[i]; }
        }
      } else {
        var i :| 0 <= i < |segs| - 1 && EndsWith(segs[i], '\r');
        if i == 0 {
          assert t[|seg| - 1] == '\r';
        } else {
          assert EndsWith(tail[i - 1], '\r');
          var k :| 0 <= k < |u| - 1 && u[k] == '\r';
          assert t[|seg| + k] == '\r';
        }
      }
    }
  }
}
