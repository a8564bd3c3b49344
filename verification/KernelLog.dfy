/**
 kernel/printk.c: the wrapping log buffer, the line and level machine of printk, and the
 chunked parser with which register_console replays the log to a new console.
 */
module KernelLog {
  import opened LogText

  const LOG_BUF_SIZE := 16384
  const BUF_SIZE := 1024
  const WORD := 0x1_0000_0000
  const NUL := '\0'

  class Console {
    const loglevel: nat
    /** The driver has a write function; printk skips consoles without one. */
    const writes: bool
    /** Everything the driver's write function has been given. */
    var out: string

    constructor (loglevel: nat, writes: bool)
      ensures this.loglevel == loglevel && this.writes == writes && out == []
    {
      this.loglevel, this.writes, out := loglevel, writes, [];
    }

    /** The least important level that gets through. */
    function Level(): int { if writes then loglevel else NONE }
  }

  /** The slot of the n-th logged character. */
  function Slot(n: nat): (i: nat)
    ensures i < LOG_BUF_SIZE
  {
    n % LOG_BUF_SIZE
  }

  lemma SlotShift(r: nat, k: nat)
    ensures (r + k * LOG_BUF_SIZE) % LOG_BUF_SIZE == r % LOG_BUF_SIZE
  {
  }

  lemma SlotOfWord(n: nat)
    ensures n % WORD % LOG_BUF_SIZE == n % LOG_BUF_SIZE
  {
    var q := n / WORD;
    assert n == n % WORD + q * 262144 * LOG_BUF_SIZE;
    SlotShift(n % WORD, q * 262144);
  }

  /** 32-bit counters stand in for the true ones, because the buffer size divides 2^32. */
  lemma SlotFromCounters(start: nat, size: nat)
    ensures (start % WORD + size) % WORD % LOG_BUF_SIZE == Slot(start + size)
  {
    SlotOfWord(start % WORD + size);
    SlotOfWord(start);
    var a, b := start % WORD, start;
    SumSlot(a, b, size);
  }

  lemma SumSlot(a: nat, b: nat, size: nat)
    requires a % LOG_BUF_SIZE == b % LOG_BUF_SIZE
    ensures (a + size) % LOG_BUF_SIZE == (b + size) % LOG_BUF_SIZE
  {
  }

  lemma CountUp(n: nat)
    ensures (n % WORD + 1) % WORD == (n + 1) % WORD
  {
  }

  lemma SlotsDiffer(i: nat, n: nat)
    requires 0 < n - i < LOG_BUF_SIZE
    ensures Slot(i) != Slot(n)
  {
  }

  class Log {
    const logBuf: array<char>
    const buf: array<char>
    var logStart: nat
    var logSize: nat
    var loggedChars: nat
    var msgLevel: int
    var consoles: seq<Console>

    /** Everything logged since boot, and the segments it came from. */
    ghost var total: string
    ghost var history: seq<string>

    /** The ring holds the last 16384 characters logged, at the slots their numbers select. */
    ghost predicate Ring()
      reads this`logStart, this`logSize, this`loggedChars, this`total, logBuf
    {
      && logBuf.Length == LOG_BUF_SIZE + 1
      && logSize == (if |total| < LOG_BUF_SIZE then |total| else LOG_BUF_SIZE)
      && logStart == (|total| - logSize) % WORD && loggedChars == |total| % WORD
      && forall i {:trigger total[i]} :: |total| - logSize <= i < |total| ==> logBuf[Slot(i)] == total[i]
    }

    /** Append one character to the ring, overwriting the oldest when it is full. */
    method LogChar(c: char)
      requires Ring()
      modifies this`logStart, this`logSize, this`loggedChars, this`total, logBuf
      ensures Ring() && total == old(total) + [c]
    {
      hide Slot;
      ghost var n := |total|;
      SlotFromCounters(n - logSize, logSize);
      CountUp(n);
      CountUp(n - logSize);
      forall i: nat | n - logSize <= i < n && n - i < LOG_BUF_SIZE
        ensures Slot(i) != Slot(n)
      {
        SlotsDiffer(i, n);
      }
      logBuf[(logStart + logSize) % WORD % LOG_BUF_SIZE] := c;
      if logSize < LOG_BUF_SIZE {
        logSize := logSize + 1;
      } else {
        logStart := (logStart + 1) % WORD;
      }
      loggedChars := (loggedChars + 1) % WORD;
      total := total + [c];
    }

    constructor ()
      ensures Valid() && total == [] && history == [] && consoles == []
      ensures fresh(logBuf) && fresh(buf)
    {
      logBuf := new char[LOG_BUF_SIZE + 1];
      buf := new char[BUF_SIZE];
      logStart, logSize, loggedChars, msgLevel := 0, 0, 0, NONE;
      consoles, total, history := [], [], [];
    }
  
    /** printk's inner loop: log the buffer from p0 up to the first line end. */
    method LogLine(p0: nat, end: nat) returns (p: nat, lineFeed: bool)
      requires Ring() && buf != logBuf && p0 <= end <= buf.Length
      modifies this`logStart, this`logSize, this`loggedChars, this`total, logBuf
      ensures Ring() && p0 <= p <= end && (if lineFeed then p < end && IsEol(buf[p]) else p == end)
      ensures forall i :: p0 <= i < p ==> !IsEol(buf[i])
      ensures total == old(total) + buf[p0..if lineFeed then p + 1 else p]
    {
      hide Ring;
      p, lineFeed := p0, false;
      while p < end
        invariant Ring() && p0 <= p <= end && !lineFeed
        invariant forall i :: p0 <= i < p ==> !IsEol(buf[i])
        invariant total == old(total) + buf[p0..p]
      {
        LogChar(buf[p]);
        assert buf[p0..p + 1] == buf[p0..p] + [buf[p]];
        if IsEol(buf[p]) {
          lineFeed := true;
          break;
        }
        p := p + 1;
      }
    }

    ghost predicate DistinctConsoles()
      reads this`consoles
    {
      forall i, j :: 0 <= i < j < |consoles| ==> consoles[i] != consoles[j]
    }

    /** Give a message to every attached console that takes its level. */
    method WriteConsoles(msg: string)
      requires DistinctConsoles() && 0 <= msgLevel
      modifies consoles
      ensures forall c :: c in consoles ==>
                c.out == old(c.out) + if c.writes && msgLevel <= c.loglevel then msg else []
      ensures forall c :: c in consoles ==> c.out == old(c.out) + if msgLevel <= c.Level() then msg else []
    {
      var i := 0;
      while i < |consoles|
        invariant 0 <= i <= |consoles|
        invariant forall j {:trigger consoles[j]} :: 0 <= j < i ==>
                    consoles[j].out == old(consoles[j].out) + if msgLevel <= consoles[j].Level() then msg else []
        invariant forall j {:trigger consoles[j]} :: i <= j < |consoles| ==> consoles[j].out == old(consoles[j].out)
      {
        if msgLevel <= consoles[i].loglevel && consoles[i].writes {
          consoles[i].out := consoles[i].out + msg;
        }
        i := i + 1;
      }
    }

    /** One pass of printk's outer loop: the segment of `rest` that starts at p0.  A missing
        level prefix is written over the three characters before it. */
    method PrintSegment(p0: nat, end: nat, ghost rest: string) returns (p: nat)
      requires Ring() && DistinctConsoles() && buf != logBuf && NONE <= msgLevel <= MAX_LEVEL
      requires 3 <= p0 < end < buf.Length && buf[p0..end] == rest && buf[end] == NUL
      modifies this`logStart, this`logSize, this`loggedChars, this`total, this`msgLevel, logBuf, buf, consoles
      ensures Ring()
      ensures var seg := rest[..FirstSegment(rest)];
              && total == old(total) + SegLogged(old(msgLevel), seg) && msgLevel == SegNext(old(msgLevel), seg)
              && p == p0 + |seg| + (if EndsLine(seg) then 0 else 1)
              && (forall c :: c in consoles ==> c.out == old(c.out) + SegShown(old(msgLevel), seg, c.Level()))
      ensures forall i :: p0 <= i < buf.Length ==> buf[i] == old(buf[i])
    {
      hide *;
      var msg;
      p, msg := StartSegment(p0, end, rest);
      ghost var q := p;
      var lineFeed;
      p, lineFeed := LogLine(p, end);
      PassText(buf[..], p0, end, q, msg, p, lineFeed, old(msgLevel), rest);
      SegLevelRange(old(msgLevel), rest);
      WriteConsoles(buf[msg..if lineFeed then p + 1 else p]);
      if lineFeed {
        msgLevel := NONE;
      }
      p := p + 1;
    }

    /** The level part of a pass: find or insert the prefix. */
    method StartSegment(p0: nat, end: nat, ghost rest: string) returns (p: nat, msg: nat)
      requires NONE <= msgLevel <= MAX_LEVEL && 3 <= p0 < end < buf.Length && buf[p0..end] == rest && buf[end] == NUL
      modifies this`msgLevel, buf
      ensures msgLevel == SegLevel(old(msgLevel), rest)
      ensures forall i :: p0 <= i < buf.Length ==> buf[i] == old(buf[i])
      ensures if old(msgLevel) < 0 && !HasLevel(rest)
              then p == p0 - 3 && msg == p0 && buf[p..p0] == Prefix(DEFAULT_LEVEL)
              else p == p0 && msg == if old(msgLevel) < 0 then p0 + 3 else p0
    {
      p, msg := p0, p0;
      assert forall i :: 0 <= i < |rest| ==> rest[i] == buf[p0 + i];
      if msgLevel < 0 {
        if buf[p] != '<' || buf[p + 1] < '0' || buf[p + 1] > '7' || buf[p + 2] != '>' {
          p := p - 3;
          buf[p] := '<';
          buf[p + 1] := (DEFAULT_LEVEL + '0' as int) as char;
          buf[p + 2] := '>';
        } else {
          msg := msg + 3;
        }
        msgLevel := buf[p + 1] as int - '0' as int;
      }
    }

    ghost predicate Valid()
      reads this, logBuf
    {
      && Ring() && DistinctConsoles() && buf != logBuf && buf.Length == BUF_SIZE
      && AreSegments(history) && total == Logged(NONE, history) && msgLevel == Next(NONE, history)
      && NONE <= msgLevel <= MAX_LEVEL
    }

    /** printk's outer loop over the text in the buffer. */
    method PrintSegments(end: nat, ghost text: string)
      requires Ring() && DistinctConsoles() && buf != logBuf && NONE <= msgLevel <= MAX_LEVEL
      requires end == |text| + 3 < buf.Length && buf[3..end] == text && buf[end] == NUL
      modifies this`logStart, this`logSize, this`loggedChars, this`total, this`msgLevel, logBuf, buf, consoles
      ensures Ring() && total == old(total) + Logged(old(msgLevel), Segments(text))
      ensures msgLevel == Next(old(msgLevel), Segments(text)) && NONE <= msgLevel <= MAX_LEVEL
      ensures forall c :: c in consoles ==> c.out == old(c.out) + Shown(old(msgLevel), Segments(text), c.Level())
    {
      hide *;
      ghost var v, done, rest := msgLevel, [], text;
      HistoryStart(v);
      NoSegments();
      var p := 3;
      while p < end
        invariant 3 <= p && Ring() && NONE <= msgLevel <= MAX_LEVEL
        invariant p < end ==> buf[p..end] == rest && buf[end] == NUL
        invariant p >= end <==> rest == []
        invariant Segments(text) == done + Segments(rest)
        invariant total == old(total) + Logged(v, done) && msgLevel == Next(v, done)
        invariant forall c :: c in consoles ==> c.out == old(c.out) + Shown(v, done, c.Level())
        decreases end - p
      {
        ghost var n := FirstSegment(rest);
        ghost var seg := rest[..n];
        HistoryStep(v, done, seg);
        SegmentsStep(rest);
        SegmentTail(rest, n);
        NextRange(msgLevel, seg);
        ghost var q := p;
        p := PrintSegment(p, end, rest);
        assert buf[q..end] == rest;
        assert p < end ==> buf[p..end] == buf[q..end][n..];
        assert done + ([seg] + Segments(rest[n..])) == done + [seg] + Segments(rest[n..]);
        done, rest := done + [seg], rest[n..];
      }
      assert done + [] == done;
    }

    /** kernel/printk.c, printk, from the formatted text on. */
    method Printk(text: string)
      requires Valid() && |text| + 4 <= 1024
      modifies this`logStart, this`logSize, this`loggedChars, this`total, this`msgLevel, this`history, logBuf, buf,
               consoles
      ensures Valid() && history == old(history) + Segments(text)
      ensures forall c :: c in consoles ==>
                c.out == old(c.out) + Shown(old(msgLevel), Segments(text), if c.writes then c.loglevel else -1)
    {
      hide Ring, Segments, Logged, Shown, Next;
      forall i | 0 <= i < |text| { buf[i + 3] := text[i]; }
      var end := |text| + 3;
      buf[end] := NUL;
      PrintSegments(end, text);
      SegmentsAreSegments(text);
      NextConcat(NONE, history, Segments(text));
      LoggedConcat(NONE, history, Segments(text));
      history := history + Segments(text);
    }

    // ---------------------------------------------------------------- replay

    /** The text the ring still holds. */
    ghost function Kept(): string
      requires Ring()
      reads this`logStart, this`logSize, this`loggedChars, this`total, logBuf
    {
      total[|total| - logSize..]
    }

    /** kernel/printk.c, register_console: attach a console and show it the log, parsed anew in
        chunks of at most fifteen characters. */
    method RegisterConsole(con: Console)
      requires Valid() && con !in consoles && con.writes
      modifies this`consoles, con`out
      ensures Valid() && consoles == [con] + old(consoles)
      ensures con.out == old(con.out) + Replay(NONE, Kept(), con.loglevel)
      ensures |total| <= 16384 && NoInteriorReturn(history) ==>
                con.out == old(con.out) + Shown(NONE, history, con.loglevel)
      ensures |total| <= 16384 && 7 <= con.loglevel ==>
                (con.out == old(con.out) + Shown(NONE, history, con.loglevel) <==> NoInteriorReturn(history))
      ensures |total| <= 16384 && ReturnsHidden(NONE, history, con.loglevel) ==>
                con.out == old(con.out) + Shown(NONE, history, con.loglevel)
      ensures forall p :: 0 <= p < |Kept()| && Kept()[p] == '\n' ==> CatchesUp(history, Kept(), p, con.loglevel)
    {
      hide Logged, Shown, Next, Ring, NoInteriorReturn, ReturnsHidden, CatchesUp, Kept;
      consoles := [con] + consoles;
      ReplayTo(con);
      KeptCatchesUp(con.loglevel);
      if |total| <= LOG_BUF_SIZE {
        WholeLogKept();
        if NoInteriorReturn(history) { ReplayAgrees(NONE, history, con.loglevel); }
        if MAX_LEVEL <= con.loglevel { ReplayAgreesIff(history, con.loglevel); }
        ReplayAlwaysAgreesIff(history, con.loglevel);
        SameStart(old(con.out), Replay(NONE, total, con.loglevel), Shown(NONE, history, con.loglevel));
      }
    }

    /** The log keeps the last 16384 characters. */
    lemma KeptIsTheEnd()
      requires Ring()
      ensures |Kept()| == (if |total| < 16384 then |total| else 16384)
      ensures forall i :: 0 <= i < |Kept()| ==> Kept()[i] == total[|total| - |Kept()| + i]
    {
    }

    lemma KeptCatchesUp(loglevel: int)
      requires Valid()
      ensures forall p :: 0 <= p < |Kept()| && Kept()[p] == '\n' ==> CatchesUp(history, Kept(), p, loglevel)
    {
      hide CatchesUp, Logged;
      forall p | 0 <= p < |Kept()| && Kept()[p] == '\n'
        ensures CatchesUp(history, Kept(), p, loglevel)
      {
        ReplayOfTail(history, |total| - logSize, p, loglevel);
      }
    }

    lemma WholeLogKept()
      requires Ring() && |total| <= LOG_BUF_SIZE
      ensures Kept() == total
    {
    }

    /** The loop of register_console. */
    method ReplayTo(con: Console)
      requires Ring()
      modifies con`out
      ensures con.out == old(con.out) + Replay(NONE, Kept(), con.loglevel)
    {
      hide Ring, Kept, Replay, Slot, HasLevel, Collected;
      ghost var log := Kept();
      KeptSlots();
      var level, p := NONE, logStart % LOG_BUF_SIZE;
      var chunk := new char[16];
      var i, j := 0, 0;
      assert log[0..] == log && chunk[..0] == [];
      NoneCollected(log, 0);
      while i < logSize
        invariant 0 <= j <= i <= logSize && j < 15 && p == Slot(|total| - logSize + i) && NONE <= level <= MAX_LEVEL
        invariant Collected(chunk[..j], log, i) && (i == logSize ==> j == 0)
        invariant con.out + Replay(level, log[i - j..], con.loglevel) == old(con.out) + Replay(NONE, log, con.loglevel)
      {
        ghost var part := chunk[..j];
        chunk[j] := logBuf[p];
        NextSlot(|total| - logSize + i);
        p := (p + 1) % LOG_BUF_SIZE;
        assert chunk[..j + 1] == part + [chunk[j]];
        CollectOne(part, log, i);
        j := j + 1;
        i := i + 1;
        if chunk[j - 1] != '\n' && i < logSize && j < 15 {
          continue;
        }
        assert chunk[..j - 1] == part;
        ChunkStarts(chunk[..j], log[i..]);
        level := ShowChunk(con, chunk, j, level, log[i..]);
        j := 0;
        assert chunk[..0] == [];
        NoneCollected(log, i);
      }
      assert log[logSize..] == [];
      ReplayNothing(level, con.loglevel);
    }

    lemma KeptSlots()
      requires Ring()
      ensures logSize <= |total| && logStart % LOG_BUF_SIZE == Slot(|total| - logSize) && |Kept()| == logSize
              && logBuf.Length == LOG_BUF_SIZE + 1
      ensures forall i :: 0 <= i < logSize ==> logBuf[Slot(|total| - logSize + i)] == Kept()[i]
    {
      SlotOfWord(|total| - logSize);
      forall i | 0 <= i < logSize
        ensures logBuf[Slot(|total| - logSize + i)] == Kept()[i]
      {
        assert Kept()[i] == total[|total| - logSize + i];
      }
    }
  }

  /** The part of a line, before position i of the log, that waits in the chunk. */
  ghost predicate Collected(part: string, log: string, i: nat) {
    |part| <= i <= |log| && part == log[i - |part|..i] && '\n' !in part
  }

  lemma NoneCollected(log: string, i: nat)
    requires i <= |log|
    ensures Collected([], log, i)
  {
  }

  lemma CollectOne(part: string, log: string, i: nat)
    requires Collected(part, log, i) && i < |log|
    ensures '\n' !in part && |part| <= i && log[i - |part|..] == part + [log[i]] + log[i + 1..]
    ensures log[i] != '\n' ==> Collected(part + [log[i]], log, i + 1)
  {
    SliceGrows(log, i - |part|, i);
  }

  /** Parse and show one chunk of the log; `rest` follows it. */
  method ShowChunk(con: Console, chunk: array<char>, j: nat, before: int, ghost rest: string) returns (level: int)
    requires chunk.Length == 16 && 0 < j <= 15 && NONE <= before <= MAX_LEVEL
    requires '\n' !in chunk[..j - 1] && (HasLevel(chunk[..j]) <==> HasLevel(chunk[..j] + rest))
    modifies con`out, chunk
    ensures NONE <= level <= MAX_LEVEL
    ensures con.out + Replay(level, rest, con.loglevel)
            == old(con.out + Replay(before, chunk[..j] + rest, con.loglevel))
  {
    hide Replay;
    ghost var text := chunk[..j];
    chunk[j] := NUL;
    assert chunk[..j] == text;
    ChunkReplays(before, text, rest, con.loglevel);
    level := before;
    var q, len := 0, j;
    if level < 0 {
      if chunk[0] == '<' && chunk[1] >= '0' && chunk[1] <= '7' && chunk[2] == '>' {
        level := chunk[1] as int - '0' as int;
        q, len := 3, len - 3;
      } else {
        level := DEFAULT_LEVEL;
      }
    }
    assert chunk[q..q + len] == SegBody(before, text);
    if level <= con.loglevel {
      con.out := con.out + chunk[q..q + len];
    }
    if chunk[j - 1] == '\n' {
      level := NONE;
    }
  }

  /** A chunk ends early only at a newline or at the end of the log, so it never splits a prefix. */
  lemma ChunkStarts(text: string, rest: string)
    requires 0 < |text| && '\n' !in text[..|text| - 1]
    requires text[|text| - 1] == '\n' || rest == [] || |text| == 15
    ensures HasLevel(text) <==> HasLevel(text + rest)
  {
    var log := text + rest;
    assert forall i :: 0 <= i < |text| ==> log[i] == text[i];
    assert rest == [] ==> log == text;
  }

  lemma ChunkReplays(u: int, text: string, rest: string, loglevel: int)
    requires NONE <= u <= MAX_LEVEL && 0 < |text| && '\n' !in text[..|text| - 1]
    requires HasLevel(text) <==> HasLevel(text + rest)
    ensures Replay(u, text + rest, loglevel)
            == (if SegLevel(u, text) <= loglevel then SegBody(u, text) else [])
               + Replay(if text[|text| - 1] == '\n' then NONE else SegLevel(u, text), rest, loglevel)
  {
    var level, body := SegLevel(u, text), SegBody(u, text);
    assert forall i :: 0 <= i < |text| - 1 ==> text[i] == text[..|text| - 1][i];
    if u < 0 && HasLevel(text) {
      assert (text + rest)[3..] == body + rest;
      assert LevelOf(text + rest) == LevelOf(text);
      assert forall i :: 0 <= i < |body| ==> body[i] == text[i + 3];
    }
    ReplayLine(level, body, rest, loglevel);
  }

  lemma SliceGrows(s: string, a: nat, i: nat)
    requires a <= i < |s|
    ensures s[a..i + 1] == s[a..i] + [s[i]]
  {
  }

  lemma SliceOfSlice(s: string, a: nat, b: nat, n: nat)
    requires a <= b <= |s| && n <= b - a
    ensures s[a..b][..n] == s[a..a + n]
  {
  }

  lemma DropOfSlice(s: string, a: nat, b: nat, n: nat)
    requires a <= b <= |s| && n <= b - a
    ensures s[a..b][n..] == s[a + n..b]
  {
  }

  lemma ReplayNothing(u: int, loglevel: int)
    ensures Replay(u, [], loglevel) == []
  {
  }

  /** A stretch without a line end inside, that ends with one or with the text, is the first segment. */
  lemma {:induction false} SegmentEnds(t: string, n: nat)
    requires 0 < n <= |t| && (forall i :: 0 <= i < n - 1 ==> !IsEol(t[i])) && (n < |t| ==> IsEol(t[n - 1]))
    ensures n == FirstSegment(t)
  {
    if n > 1 {
      assert !IsEol(t[0]);
      SegmentEnds(t[1..], n - 1);
    }
  }

  /** The first segment carries the level prefix of the whole text, if there is one. */
  lemma SegmentParts(v: int, t: string)
    requires t != [] && v <= MAX_LEVEL
    ensures var seg := t[..FirstSegment(t)];
            && (HasLevel(seg) <==> HasLevel(t)) && SegLevel(v, seg) == SegLevel(v, t)
            && SegLogged(v, seg) == (if v < 0 && !HasLevel(t) then Prefix(DEFAULT_LEVEL) + seg else seg)
            && (v < 0 && HasLevel(t) ==> 3 <= |seg|)
  {
    var n := FirstSegment(t);
    var seg := t[..n];
    if HasLevel(t) {
      assert !IsEol(t[0]) && !IsEol(t[1]) && !IsEol(t[2]);
      assert n >= 3;
      assert Prefix(LevelOf(seg)) == seg[..3];
      assert seg == seg[..3] + seg[3..];
    }
  }

  lemma PrefixHasNoEol(b: seq<char>, q: nat, p0: nat)
    requires q <= p0 <= |b| && (q == p0 || b[q..p0] == Prefix(DEFAULT_LEVEL))
    ensures forall i :: q <= i < p0 ==> !IsEol(b[i])
  {
    forall i | q <= i < p0
      ensures !IsEol(b[i])
    {
      assert b[i] == b[q..p0][i - q];
    }
  }

  /** Where printk's inner loop stops is where the first segment ends. */
  lemma PassEnd(b: seq<char>, p0: nat, end: nat, q: nat, p: nat, lineFeed: bool, rest: string)
    requires p0 < end < |b| && b[p0..end] == rest && q <= p0 && (q == p0 || b[q..p0] == Prefix(DEFAULT_LEVEL))
    requires q <= p <= end && (if lineFeed then p < end && IsEol(b[p]) else p == end)
    requires forall i :: q <= i < p ==> !IsEol(b[i])
    ensures var e := if lineFeed then p + 1 else p;
            p0 < e && e - p0 == FirstSegment(rest) && (EndsLine(rest[..e - p0]) <==> lineFeed)
  {
    hide FirstSegment, Prefix;
    PrefixHasNoEol(b, q, p0);
    var e := if lineFeed then p + 1 else p;
    assert forall i :: 0 <= i < |rest| ==> rest[i] == b[p0 + i];
    SegmentEnds(rest, e - p0);
  }

  /** What one pass finds in the buffer b: the logged stretch and the shown stretch. */
  lemma PassText(b: seq<char>, p0: nat, end: nat, q: nat, msg: nat, p: nat, lineFeed: bool, v: int, rest: string)
    requires p0 < end < |b| && b[p0..end] == rest && NONE <= v <= MAX_LEVEL
    requires if v < 0 && !HasLevel(rest) then q + 3 == p0 && msg == p0 && b[q..p0] == Prefix(DEFAULT_LEVEL)
             else q == p0 && msg == if v < 0 then p0 + 3 else p0
    requires q <= p <= end && (if lineFeed then p < end && IsEol(b[p]) else p == end)
    requires forall i :: q <= i < p ==> !IsEol(b[i])
    ensures var seg, e := rest[..FirstSegment(rest)], if lineFeed then p + 1 else p;
            && e == p0 + |seg| && (EndsLine(seg) <==> lineFeed)
            && msg <= e && b[q..e] == SegLogged(v, seg) && b[msg..e] == SegBody(v, seg)
            && SegLevel(v, seg) == SegLevel(v, rest)
            && SegNext(v, seg) == (if lineFeed then NONE else SegLevel(v, rest))
            && (forall loglevel ::
                  SegShown(v, seg, loglevel) == if SegLevel(v, rest) <= loglevel then b[msg..e] else [])
  {
    hide FirstSegment, Prefix, HasLevel, IsEol, EndsLine, SegLogged, SegLevel;
    var e := if lineFeed then p + 1 else p;
    PassEnd(b, p0, end, q, p, lineFeed, rest);
    SegmentParts(v, rest);
    SliceOfSlice(b, p0, end, e - p0);
    assert q < p0 ==> b[q..e] == b[q..p0] + b[p0..e];
    if msg > p0 { DropOfSlice(b, p0, e, 3); }
  }

  lemma HistoryStart(v: int)
    requires v <= MAX_LEVEL
    ensures Logged(v, []) == [] && Next(v, []) == v && forall loglevel :: Shown(v, [], loglevel) == []
  {
  }

  lemma NoSegments()
    ensures Segments([]) == []
  {
  }

  lemma SegmentsStep(rest: string)
    requires rest != []
    ensures Segments(rest) == [rest[..FirstSegment(rest)]] + Segments(rest[FirstSegment(rest)..])
  {
  }

  /** The text after the first segment is empty exactly when the segment does not end a line, or
      ends with it. */
  lemma SegmentTail(rest: string, n: nat)
    requires rest != [] && n == FirstSegment(rest)
    ensures 0 < n <= |rest| && (!EndsLine(rest[..n]) ==> n == |rest|)
  {
  }

  lemma HistoryStep(v: int, done: seq<string>, seg: string)
    requires v <= MAX_LEVEL
    ensures Next(v, done + [seg]) == SegNext(Next(v, done), seg)
    ensures Logged(v, done + [seg]) == Logged(v, done) + SegLogged(Next(v, done), seg)
    ensures forall loglevel ::
              Shown(v, done + [seg], loglevel) == Shown(v, done, loglevel) + SegShown(Next(v, done), seg, loglevel)
  {
    hide SegLogged, SegShown, SegNext;
    var u := Next(v, done);
    NextRange(u, seg);
    NextConcat(v, done, [seg]);
    LoggedConcat(v, done, [seg]);
    assert [seg][1..] == [];
    forall loglevel: int
      ensures Shown(v, done + [seg], loglevel) == Shown(v, done, loglevel) + SegShown(u, seg, loglevel)
    {
      ShownConcat(v, done, [seg], loglevel);
    }
  }

  lemma NextSlot(n: nat)
    ensures (Slot(n) + 1) % LOG_BUF_SIZE == Slot(n + 1)
  {
  }
}
