/**
 * The occurrence pattern of the stats collector (plugin/src/habit-core.ts:347-350):
 * `#<prefix>_([^\s#]+)(?:\s+(\d{1,2}:\d{2}))?` with the flags `gim`, run over a note
 * with `exec` until it finds nothing more.
 *
 * The scanner here is that regular expression written out: at each position it
 * tries the pattern and, on success, resumes after the match; otherwise it moves
 * one character on. The token is greedy and never has to give characters back,
 * because the optional time group may always match nothing; the time group takes
 * the whole whitespace run and then `HH:MM` or `H:MM`.
 */
module TagScanner {
  import opened Wrappers
  import opened HabitText
  import opened HabitOptions

  /** A wall-clock time as the time group spells it. */
  datatype Clock = Clock(hours: nat, minutes: nat)

  /** One occurrence: the token (`match[1]`) and the time (`match[2]`), if any. */
  datatype Occurrence = Occurrence(token: string, time: Option<Clock>)

  /** An occurrence together with the number of characters the whole match spans. */
  datatype Match = Match(occ: Occurrence, length: nat)

  /** The class `[^\s#]` of token characters. */
  predicate IsTokenChar(c: char) { !IsSpace(c) && c != '#' }

  /** Two characters equal up to case, as the `i` flag compares them. */
  predicate SameLetter(c: char, d: char) { LowerChar(c) == LowerChar(d) }

  /** The length of the run of characters satisfying `p` at the start of `t`. */
  function RunLength(t: string, p: char -> bool): (n: nat)
    ensures n <= |t|
    ensures forall i :: 0 <= i < n ==> p(t[i])
    ensures n < |t| ==> !p(t[n])
    decreases |t|
  {
    if t != [] && p(t[0]) then 1 + RunLength(t[1..], p) else 0
  }

  /** `#<prefix>_` at the start of `t`, the prefix compared up to case. */
  predicate TagAt(t: string, prefix: string) {
    && |t| >= |prefix| + 2
    && t[0] == '#'
    && (forall i :: 0 <= i < |prefix| ==> SameLetter(t[i + 1], prefix[i]))
    && t[|prefix| + 1] == '_'
  }

  /** `\d{2}:\d{2}`, tried first, or `\d:\d{2}` at the start of `v`: its length and its time. */
  function TimeShape(v: string): (r: Option<(nat, Clock)>)
    ensures r.Some? ==> 4 <= r.value.0 <= |v|
  {
    if |v| >= 5 && IsDigit(v[0]) && IsDigit(v[1]) && v[2] == ':' && IsDigit(v[3]) && IsDigit(v[4]) then
      Some((5, Clock(DigitsValue(v[..2]), DigitsValue(v[3..5]))))
    else if |v| >= 4 && IsDigit(v[0]) && v[1] == ':' && IsDigit(v[2]) && IsDigit(v[3]) then
      Some((4, Clock(DigitsValue(v[..1]), DigitsValue(v[2..4]))))
    else None
  }

  /**
   * The optional group `\s+(\d{1,2}:\d{2})` at the start of `u`: the characters it spans
   * and the time it captures, which `parseInt` reads as hours and minutes. The
   * whitespace run is taken whole: a shorter run would leave a space where a digit
   * must follow.
   */
  function TimeAt(u: string): (r: Option<(nat, Clock)>)
    ensures r.Some? ==> 5 <= r.value.0 <= |u|
  {
    var w := RunLength(u, IsSpace);
    if w == 0 then None
    else
      match TimeShape(u[w..])
      case None => None
      case Some((k, clock)) => Some((w + k, clock))
  }

  /** The token and the optional time, `rest` being what follows `#<prefix>_`. */
  function TokenMatch(rest: string, start: nat): (r: Option<Match>)
    ensures r.Some? ==> start < r.value.length <= start + |rest|
  {
    var n := RunLength(rest, IsTokenChar);
    if n == 0 then None
    else
      var token := rest[..n];
      match TimeAt(rest[n..])
      case None => Some(Match(Occurrence(token, None), start + n))
      case Some((k, clock)) => Some(Match(Occurrence(token, Some(clock)), start + n + k))
  }

  /** The pattern tried at the start of `t`. */
  function MatchAt(t: string, prefix: string): (r: Option<Match>)
    ensures r.Some? ==> 0 < r.value.length <= |t|
  {
    if !TagAt(t, prefix) then None else TokenMatch(t[|prefix| + 2..], |prefix| + 2)
  }

  /**
   * A match starts with `#<prefix>_`, its token is a non-empty run of token characters
   * right after it, and the token is as long as it can be.
   */
  lemma {:induction false} MatchAtShape(t: string, prefix: string)
    requires MatchAt(t, prefix).Some?
    ensures TagAt(t, prefix)
    ensures var token := MatchAt(t, prefix).value.occ.token;
      && token != [] && All(token, IsTokenChar)
      && t[|prefix| + 2..][..|token|] == token
      && (|prefix| + 2 + |token| < |t| ==> !IsTokenChar(t[|prefix| + 2 + |token|]))
  {
    var rest := t[|prefix| + 2..];
    var n := RunLength(rest, IsTokenChar);
    if n < |rest| {
      assert rest[n] == t[|prefix| + 2 + n];
    }
  }

  /** Every occurrence `exec` finds in `t`, in order, resuming after each match. */
  function Scan(t: string, prefix: string): seq<Occurrence>
    decreases |t|
  {
    if t == [] then []
    else
      match MatchAt(t, prefix)
      case Some(m) => [m.occ] + Scan(t[m.length..], prefix)
      case None => Scan(t[1..], prefix)
  }

  // ---------------------------------------------------------------------
  // Appending text that starts a new line
  // ---------------------------------------------------------------------

  /**
   * Text that starts with a line break followed by something that can neither extend a
   * whitespace run nor start a time: the shape of every log line.
   */
  predicate StartsNewLine(b: string) {
    && b != [] && b[0] == '\n'
    && (|b| >= 2 ==> !IsSpace(b[1]) && !IsDigit(b[1]))
  }

  /** A prefix made of characters that are not whitespace. */
  predicate SolidPrefix(prefix: string) {
    forall i :: 0 <= i < |prefix| ==> !IsSpace(prefix[i])
  }

  lemma SplitAppend(a: string, c: string)
    ensures (a + c)[..|a|] == a && (a + c)[|a|..] == c
  {
  }

  lemma DropAppend(x: string, b: string, k: nat)
    requires k <= |x|
    ensures (x + b)[k..] == x[k..] + b
  {
  }

  /** A run stopped by the first appended character is the run of `x` alone. */
  lemma {:induction false} RunLengthAppend(x: string, b: string, p: char -> bool)
    requires b == [] || !p(b[0])
    ensures RunLength(x + b, p) == RunLength(x, p)
    decreases |x|
  {
    if x == [] {
      assert x + b == b;
    } else {
      assert (x + b)[0] == x[0];
      assert (x + b)[1..] == x[1..] + b;
      RunLengthAppend(x[1..], b, p);
    }
  }

  /** A run that ends inside `u` ends at the same place in `u + b`. */
  lemma {:induction false} RunLengthPrefix(u: string, b: string, p: char -> bool)
    requires RunLength(u, p) < |u|
    ensures RunLength(u + b, p) == RunLength(u, p)
    decreases |u|
  {
    assert (u + b)[0] == u[0];
    if p(u[0]) {
      assert (u + b)[1..] == u[1..] + b;
      RunLengthPrefix(u[1..], b, p);
    }
  }

  /** A whitespace `u` followed by a line break and a non-space stops after the break. */
  lemma {:induction false} AllSpaceRun(u: string, b: string)
    requires StartsNewLine(b)
    requires RunLength(u, IsSpace) == |u|
    ensures RunLength(u + b, IsSpace) == |u| + 1
    decreases |u|
  {
    if u == [] {
      assert u + b == b;
      if |b| >= 2 {
        assert b[1..][0] == b[1];
      }
    } else {
      assert (u + b)[0] == u[0];
      assert (u + b)[1..] == u[1..] + b;
      AllSpaceRun(u[1..], b);
    }
  }

  lemma {:induction false} TagAtAppend(x: string, b: string, prefix: string)
    requires StartsNewLine(b) && SolidPrefix(prefix)
    ensures TagAt(x + b, prefix) == TagAt(x, prefix)
  {
    var t := x + b;
    if |x| >= |prefix| + 2 {
      assert forall i :: 0 <= i < |prefix| + 2 ==> t[i] == x[i];
    } else if |t| >= |prefix| + 2 {
      assert t[|x|] == '\n';
      if 0 < |x| <= |prefix| {
        assert !IsSpace(prefix[|x| - 1]);
        assert !SameLetter(t[|x|], prefix[|x| - 1]);
      }
    }
  }

  /** The time shapes do not look past a line break. */
  lemma {:induction false} TimeShapeAppend(v: string, b: string)
    requires StartsNewLine(b)
    ensures TimeShape(v + b) == TimeShape(v)
  {
    var t := v + b;
    assert forall i :: 0 <= i < |v| ==> t[i] == v[i];
    assert t[|v|] == '\n';
    if |v| >= 5 {
      assert t[..2] == v[..2] && t[3..5] == v[3..5];
    }
    if |v| >= 4 {
      assert t[..1] == v[..1] && t[2..4] == v[2..4];
    }
  }

  /** The time group cannot reach into appended text that starts a new line. */
  lemma {:induction false} TimeAtAppend(u: string, b: string)
    requires StartsNewLine(b)
    ensures TimeAt(u + b) == TimeAt(u)
  {
    var w := RunLength(u, IsSpace);
    if w < |u| {
      RunLengthPrefix(u, b, IsSpace);
      DropAppend(u, b, w);
      TimeShapeAppend(u[w..], b);
    } else {
      TimeAtAllSpace(u, b);
    }
  }

  /** After a whitespace `u`, the run goes on into the line break, and no time follows. */
  lemma {:induction false} TimeAtAllSpace(u: string, b: string)
    requires StartsNewLine(b)
    requires RunLength(u, IsSpace) == |u|
    ensures TimeAt(u + b) == None && TimeAt(u) == None
  {
    AllSpaceRun(u, b);
    DropAppend(u, b, |u|);
    assert (u + b)[|u| + 1..] == b[1..];
    assert TimeShape(b[1..]) == None by {
      if |b| >= 2 {
        assert b[1..][0] == b[1];
      }
    }
    assert u[|u|..] == [];
  }

  lemma {:induction false} TokenMatchAppend(rest: string, b: string, start: nat)
    requires StartsNewLine(b)
    ensures TokenMatch(rest + b, start) == TokenMatch(rest, start)
  {
    RunLengthAppend(rest, b, IsTokenChar);
    var n := RunLength(rest, IsTokenChar);
    var t := rest + b;
    if n > 0 {
      assert t[..n] == rest[..n];
      assert t[n..] == rest[n..] + b;
      TimeAtAppend(rest[n..], b);
    }
    TokenMatchSame(t, rest, start, n);
  }

  /** Two texts with the same token run and the same time after it match alike. */
  lemma {:induction false} TokenMatchSame(t: string, u: string, start: nat, n: nat)
    requires n == RunLength(t, IsTokenChar) && n == RunLength(u, IsTokenChar)
    requires n > 0 ==> t[..n] == u[..n] && TimeAt(t[n..]) == TimeAt(u[n..])
    ensures TokenMatch(t, start) == TokenMatch(u, start)
  {
  }

  /** A match in `x` is the same match in `x + b`, and `x + b` matches nowhere else in `x`. */
  lemma {:induction false} MatchAtAppend(x: string, b: string, prefix: string)
    requires StartsNewLine(b) && SolidPrefix(prefix)
    ensures MatchAt(x + b, prefix) == MatchAt(x, prefix)
  {
    TagAtAppend(x, b, prefix);
    if TagAt(x, prefix) {
      var start := |prefix| + 2;
      assert (x + b)[start..] == x[start..] + b;
      TokenMatchAppend(x[start..], b, start);
    }
  }

  /** One step of the scan where the pattern matches. */
  lemma {:induction false} ScanOnMatch(t: string, prefix: string, m: Match)
    requires MatchAt(t, prefix) == Some(m)
    ensures Scan(t, prefix) == [m.occ] + Scan(t[m.length..], prefix)
  {
  }

  /** One step of the scan where the pattern does not match. */
  lemma {:induction false} ScanOnMiss(t: string, prefix: string)
    requires t != [] && MatchAt(t, prefix) == None
    ensures Scan(t, prefix) == Scan(t[1..], prefix)
  {
  }

  /** The inductive step of `ScanAppend` where `x` starts with a match. */
  lemma {:induction false} ScanAppendMatch(x: string, b: string, prefix: string, m: Match)
    requires StartsNewLine(b) && SolidPrefix(prefix)
    requires MatchAt(x, prefix) == Some(m)
    requires Scan(x[m.length..] + b, prefix) == Scan(x[m.length..], prefix) + Scan(b, prefix)
    ensures Scan(x + b, prefix) == Scan(x, prefix) + Scan(b, prefix)
  {
    MatchAtAppend(x, b, prefix);
    ScanSameMatch(x, b, prefix, m);
  }

  /** Where `x` and `x + b` start with the same match, the scan of `x + b` continues in `b`. */
  lemma {:induction false} ScanSameMatch(x: string, b: string, prefix: string, m: Match)
    requires MatchAt(x, prefix) == Some(m) && MatchAt(x + b, prefix) == Some(m)
    requires Scan(x[m.length..] + b, prefix) == Scan(x[m.length..], prefix) + Scan(b, prefix)
    ensures Scan(x + b, prefix) == Scan(x, prefix) + Scan(b, prefix)
  {
    var t := x + b;
    var rest := x[m.length..];
    ScanOnMatch(x, prefix, m);
    ScanOnMatch(t, prefix, m);
    DropAppend(x, b, m.length);
    ConsAppend(m.occ, Scan(rest, prefix), Scan(b, prefix));
  }

  lemma ConsAppend<T>(o: T, s1: seq<T>, s2: seq<T>)
    ensures [o] + (s1 + s2) == ([o] + s1) + s2
  {
  }

  /** The inductive step of `ScanAppend` where `x` does not start with a match. */
  lemma {:induction false} ScanAppendMiss(x: string, b: string, prefix: string)
    requires StartsNewLine(b) && SolidPrefix(prefix)
    requires x != [] && MatchAt(x, prefix) == None
    requires Scan(x[1..] + b, prefix) == Scan(x[1..], prefix) + Scan(b, prefix)
    ensures Scan(x + b, prefix) == Scan(x, prefix) + Scan(b, prefix)
  {
    var t := x + b;
    MatchAtAppend(x, b, prefix);
    ScanOnMiss(x, prefix);
    ScanOnMiss(t, prefix);
    DropAppend(x, b, 1);
  }

  /**
   * Scanning a note with a new line appended finds what the note held, then what the line
   * holds: no match of the note reaches into the line.
   */
  lemma {:induction false} ScanAppend(x: string, b: string, prefix: string)
    requires StartsNewLine(b) && SolidPrefix(prefix)
    ensures Scan(x + b, prefix) == Scan(x, prefix) + Scan(b, prefix)
    decreases |x|
  {
    if x == [] {
      ScanAppendEmpty(b, prefix);
    } else {
      var rest := ScanRest(x, prefix);
      ScanAppend(rest, b, prefix);
      ScanAppendStep(x, b, prefix);
    }
  }

  lemma ScanAppendEmpty(b: string, prefix: string)
    ensures Scan([] + b, prefix) == Scan([], prefix) + Scan(b, prefix)
  {
    assert [] + b == b;
  }

  /** Where the scan of `x` goes on after its first position: past the match, or one character on. */
  function ScanRest(x: string, prefix: string): (rest: string)
    requires x != []
    ensures |rest| < |x|
  {
    var r := MatchAt(x, prefix);
    if r.Some? then x[r.value.length..] else x[1..]
  }

  /** The inductive step of `ScanAppend`, from the claim for the rest of `x`. */
  lemma {:induction false} ScanAppendStep(x: string, b: string, prefix: string)
    requires StartsNewLine(b) && SolidPrefix(prefix) && x != []
    requires Scan(ScanRest(x, prefix) + b, prefix) == Scan(ScanRest(x, prefix), prefix) + Scan(b, prefix)
    ensures Scan(x + b, prefix) == Scan(x, prefix) + Scan(b, prefix)
  {
    var r := MatchAt(x, prefix);
    if r.Some? {
      ScanAppendMatch(x, b, prefix, r.value);
    } else {
      ScanAppendMiss(x, b, prefix);
    }
  }

  // ---------------------------------------------------------------------
  // The log line
  // ---------------------------------------------------------------------

  /** Five characters `HH:MM` that the long time shape reads as `clock`. */
  predicate ClockText(time: string, clock: Clock) {
    && |time| == 5 && IsDigit(time[0]) && IsDigit(time[1]) && time[2] == ':'
    && IsDigit(time[3]) && IsDigit(time[4])
    && DigitsValue(time[..2]) == clock.hours && DigitsValue(time[3..]) == clock.minutes
  }

  /** `"\n- " + habitTag + " " + time + "\n"`, the line a click appends (plugin/src/main.ts:807). */
  function LineOf(tag: string, time: string): (line: string)
    ensures StartsNewLine(line)
  {
    "\n- " + tag + " " + time + "\n"
  }

  /** The log line for a click at `hours:minutes`. */
  function LogLine(tag: string, hours: int, minutes: int): (line: string)
    requires 0 <= hours < 24 && 0 <= minutes < 60
    ensures StartsNewLine(line)
  {
    LineOf(tag, HHMM(hours, minutes))
  }

  /** `nowHHMM` spells the clock the pattern reads back. */
  lemma {:induction false} HHMMClockText(hours: int, minutes: int)
    requires 0 <= hours < 24 && 0 <= minutes < 60
    ensures ClockText(HHMM(hours, minutes), Clock(hours, minutes))
  {
    var h := HHMM(hours, minutes);
    assert h[0] == h[..2][0] && h[1] == h[..2][1];
    assert h[3] == h[3..][0] && h[4] == h[3..][1];
  }

  /** A character that cannot start a match is skipped. */
  lemma {:induction false} ScanSkip(c: char, t: string, prefix: string)
    requires c != '#'
    ensures Scan([c] + t, prefix) == Scan(t, prefix)
  {
    assert ([c] + t)[1..] == t;
  }

  /** The habit tag followed by anything starts with the tag the pattern looks for. */
  lemma {:induction false} TagAtTag(prefix: string, key: string, s: string)
    ensures TagAt(HabitTag(prefix, key) + s, prefix)
    ensures (HabitTag(prefix, key) + s)[|prefix| + 2..] == key + s
  {
    var tag := HabitTag(prefix, key);
    var t := tag + s;
    forall i | 0 <= i < |prefix| ensures SameLetter(t[i + 1], prefix[i]) {
      assert t[i + 1] == tag[1..|prefix| + 1][i];
    }
  }

  /** A key of token characters followed by a space is the whole token. */
  lemma {:induction false} TokenRun(a: string, c: string)
    requires forall i :: 0 <= i < |a| ==> IsTokenChar(a[i])
    requires c != [] && !IsTokenChar(c[0])
    ensures RunLength(a + c, IsTokenChar) == |a|
    decreases |a|
  {
    if a == [] {
      assert a + c == c;
    } else {
      assert (a + c)[0] == a[0];
      assert (a + c)[1..] == a[1..] + c;
      TokenRun(a[1..], c);
    }
  }

  /** Habit keys are made of token characters. */
  lemma {:induction false} KeyIsToken(key: string)
    requires IsHabitKey(key)
    ensures All(key, IsTokenChar)
  {
    forall i | 0 <= i < |key| ensures IsTokenChar(key[i]) {
      assert IsKeyChar(key[i]);
    }
  }

  /** The key, then text that starts with whitespace and a time, form the rest of one match. */
  lemma {:induction false} TokenMatchKey(key: string, after: string, width: nat, clock: Clock, start: nat)
    requires key != [] && All(key, IsTokenChar)
    requires after != [] && IsSpace(after[0])
    requires TimeAt(after) == Some((width, clock))
    ensures TokenMatch(key + after, start) == Some(Match(Occurrence(key, Some(clock)), start + |key| + width))
  {
    TokenRun(key, after);
    SplitAppend(key, after);
  }

  /** The tag, then whitespace and a time, form one complete match. */
  lemma {:induction false} TagMatch(prefix: string, key: string, after: string, width: nat, clock: Clock)
    requires key != [] && All(key, IsTokenChar)
    requires after != [] && IsSpace(after[0])
    requires TimeAt(after) == Some((width, clock))
    ensures MatchAt(HabitTag(prefix, key) + after, prefix)
      == Some(Match(Occurrence(key, Some(clock)), |prefix| + 2 + |key| + width))
  {
    TagAtTag(prefix, key, after);
    MatchAtTagged(HabitTag(prefix, key) + after, prefix);
    TokenMatchKey(key, after, width, clock, |prefix| + 2);
  }

  /** Past `#<prefix>_`, the match is the token and the time. */
  lemma MatchAtTagged(t: string, prefix: string)
    requires TagAt(t, prefix)
    ensures MatchAt(t, prefix) == TokenMatch(t[|prefix| + 2..], |prefix| + 2)
  {
  }

  /** Text without `#` holds no occurrence. */
  lemma {:induction false} NoHashNoMatch(t: string, prefix: string)
    requires forall i :: 0 <= i < |t| ==> t[i] != '#'
    ensures Scan(t, prefix) == []
    decreases |t|
  {
    if t != [] {
      assert !TagAt(t, prefix);
      NoHashNoMatch(t[1..], prefix);
    }
  }

  /** `#<prefix>_` followed by a space is no match. */
  lemma {:induction false} EmptyTokenNoMatch(prefix: string, after: string)
    requires after != [] && IsSpace(after[0])
    ensures MatchAt(HabitTag(prefix, "") + after, prefix) == None
  {
    TagAtTag(prefix, "", after);
    assert RunLength(after, IsTokenChar) == 0;
  }

  /** A clock text followed by anything reads back as its clock in the long shape. */
  lemma {:induction false} TimeShapeOf(time: string, clock: Clock, tail: string)
    requires ClockText(time, clock)
    ensures TimeShape(time + tail) == Some((5, clock))
  {
    var v := time + tail;
    assert v[..2] == time[..2] && v[3..5] == time[3..];
  }

  /** One space, then a clock text: the time group spans six characters. */
  lemma {:induction false} TimeAtOf(time: string, clock: Clock, tail: string)
    requires ClockText(time, clock)
    ensures TimeAt(" " + time + tail) == Some((6, clock))
  {
    var u := " " + time + tail;
    assert u[1..] == time + tail;
    assert RunLength(u[1..], IsSpace) == 0;
    assert RunLength(u, IsSpace) == 1;
    TimeShapeOf(time, clock, tail);
  }

  /** The log line, one character at a time up to the tag. */
  lemma LineShape(tag: string, time: string)
    ensures LineOf(tag, time) == ['\n'] + (['-'] + ([' '] + (tag + (" " + time + "\n"))))
  {
  }

  /** What follows the tag and the six characters of the time. */
  lemma AfterTime(tag: string, time: string)
    requires |time| == 5
    ensures (tag + (" " + time + "\n"))[|tag| + 6..] == "\n"
  {
  }

  /** The tag, one space and a clock text hold exactly one occurrence. */
  lemma {:induction false} TaggedTimeRematched(prefix: string, key: string, time: string, clock: Clock)
    requires key != [] && All(key, IsTokenChar)
    requires ClockText(time, clock)
    ensures Scan(HabitTag(prefix, key) + (" " + time + "\n"), prefix) == [Occurrence(key, Some(clock))]
  {
    var tag := HabitTag(prefix, key);
    var after := " " + time + "\n";
    TimeAtOf(time, clock, "\n");
    TagMatch(prefix, key, after, 6, clock);
    ScanOnMatch(tag + after, prefix, Match(Occurrence(key, Some(clock)), |tag| + 6));
    AfterTime(tag, time);
    NoHashNoMatch("\n", prefix);
  }

  /** A log line holds exactly one occurrence: the key and the clock it spells. */
  lemma {:induction false} LineRematched(prefix: string, key: string, time: string, clock: Clock)
    requires key != [] && IsHabitKey(key)
    requires ClockText(time, clock)
    ensures Scan(LineOf(HabitTag(prefix, key), time), prefix) == [Occurrence(key, Some(clock))]
  {
    var body := HabitTag(prefix, key) + (" " + time + "\n");
    KeyIsToken(key);
    LineShape(HabitTag(prefix, key), time);
    ScanSkip('\n', ['-'] + ([' '] + body), prefix);
    ScanSkip('-', [' '] + body, prefix);
    ScanSkip(' ', body, prefix);
    TaggedTimeRematched(prefix, key, time, clock);
  }

  /**
   * The line a click appends is found again by the collector: it holds exactly one
   * occurrence, with the habit key as token and the logged time.
   */
  lemma {:induction false} LogLineRematched(prefix: string, key: string, hours: int, minutes: int)
    requires key != [] && IsHabitKey(key)
    requires 0 <= hours < 24 && 0 <= minutes < 60
    ensures Scan(LogLine(HabitTag(prefix, key), hours, minutes), prefix)
      == [Occurrence(key, Some(Clock(hours, minutes)))]
  {
    HHMMClockText(hours, minutes);
    LineRematched(prefix, key, HHMM(hours, minutes), Clock(hours, minutes));
  }

  /** Appending the log line to a note adds exactly that one occurrence. */
  lemma {:induction false} AppendLogLine(note: string, prefix: string, key: string, hours: int, minutes: int)
    requires IsHabitKey(prefix) && key != [] && IsHabitKey(key)
    requires 0 <= hours < 24 && 0 <= minutes < 60
    ensures Scan(note + LogLine(HabitTag(prefix, key), hours, minutes), prefix)
      == Scan(note, prefix) + [Occurrence(key, Some(Clock(hours, minutes)))]
  {
    forall i | 0 <= i < |prefix| ensures !IsSpace(prefix[i]) {
      assert IsKeyChar(prefix[i]);
    }
    ScanAppend(note, LogLine(HabitTag(prefix, key), hours, minutes), prefix);
    LogLineRematched(prefix, key, hours, minutes);
  }

  /** Past its `#`, the empty-key tag and the time hold no `#`. */
  lemma {:induction false} NoHashAfterTag(prefix: string, time: string, clock: Clock)
    requires IsHabitKey(prefix) && ClockText(time, clock)
    ensures var t := (HabitTag(prefix, "") + (" " + time + "\n"))[1..];
      forall i :: 0 <= i < |t| ==> t[i] != '#'
  {
    var tag := HabitTag(prefix, "");
    var after := " " + time + "\n";
    var t := (tag + after)[1..];
    forall i | 0 <= i < |t| ensures t[i] != '#' {
      if i < |prefix| {
        assert t[i] == tag[1..|prefix| + 1][i] == prefix[i];
        assert IsKeyChar(prefix[i]);
      } else if i == |prefix| {
        assert t[i] == '_';
      } else {
        assert t[i] == after[i - |prefix| - 1];
      }
    }
  }

  /** With an empty key, the log line holds no occurrence at all. */
  lemma {:induction false} EmptyKeyLineNotMatched(prefix: string, time: string, clock: Clock)
    requires IsHabitKey(prefix) && ClockText(time, clock)
    ensures Scan(LineOf(HabitTag(prefix, ""), time), prefix) == []
  {
    var tag := HabitTag(prefix, "");
    var after := " " + time + "\n";
    var body := tag + after;
    LineShape(tag, time);
    ScanSkip('\n', ['-'] + ([' '] + body), prefix);
    ScanSkip('-', [' '] + body, prefix);
    ScanSkip(' ', body, prefix);
    EmptyTokenNoMatch(prefix, after);
    ScanOnMiss(body, prefix);
    NoHashAfterTag(prefix, time, clock);
    NoHashNoMatch(body[1..], prefix);
  }

  /**
   * A habit whose key is empty (a title with no character of the key class) logs
   * `#<prefix>_ HH:MM`, which the pattern never matches: its clicks are never counted back.
   */
  lemma {:induction false} EmptyKeyLineNotRematched(prefix: string, hours: int, minutes: int)
    requires IsHabitKey(prefix)
    requires 0 <= hours < 24 && 0 <= minutes < 60
    ensures Scan(LogLine(HabitTag(prefix, ""), hours, minutes), prefix) == []
  {
    HHMMClockText(hours, minutes);
    EmptyKeyLineNotMatched(prefix, HHMM(hours, minutes), Clock(hours, minutes));
  }
}
