/**
 * The string helpers of the habit core (plugin/src/habit-core.ts): character
 * classes, case mapping, whitespace and run handling, the habit key and tag
 * prefix normalisers, and decimal formatting (`pad2`, `isoOf`).
 *
 * Strings are sequences of Unicode scalar values. Case mapping covers ASCII
 * and the Russian Cyrillic alphabet, the letters the key and prefix
 * normalisers keep.
 */
module HabitText {

  // ---------------------------------------------------------------------
  // Character classes
  // ---------------------------------------------------------------------

  /** The characters JavaScript's `\s` matches and `String.prototype.trim` strips. */
  predicate IsSpace(c: char) {
    || c == ' ' || c == '\t' || c == '\n' || c == '\r'
    || c as int == 0x0B || c as int == 0x0C || c as int == 0xA0 || c as int == 0x1680
    || (0x2000 <= c as int <= 0x200A) || c as int == 0x2028 || c as int == 0x2029
    || c as int == 0x202F || c as int == 0x205F || c as int == 0x3000 || c as int == 0xFEFF
  }

  predicate IsUnderscore(c: char) { c == '_' }

  predicate IsSlash(c: char) { c == '/' }

  predicate IsDigit(c: char) { '0' <= c <= '9' }

  /** The class `[a-zа-яё0-9_]` that habit keys and tag prefixes are made of. */
  predicate IsKeyChar(c: char) {
    || ('a' <= c <= 'z')
    || (0x430 <= c as int <= 0x44F)
    || c as int == 0x451
    || IsDigit(c)
    || c == '_'
  }

  /** `toLowerCase` on one character, for Latin and Russian Cyrillic letters. */
  function LowerChar(c: char): (r: char)
    ensures IsKeyChar(c) ==> r == c
    ensures !IsSpace(c) ==> !IsSpace(r)
    ensures IsSpace(c) ==> r == c
  {
    if 'A' <= c <= 'Z' then (c as int + 32) as char
    else if 0x410 <= c as int <= 0x42F then (c as int + 32) as char
    else if c as int == 0x401 then 0x451 as char
    else c
  }

  /** `toUpperCase` on one character, for Latin and Russian Cyrillic letters. */
  function UpperChar(c: char): (r: char)
    ensures LowerChar(r) == LowerChar(c)
  {
    if 'a' <= c <= 'z' then (c as int - 32) as char
    else if 0x430 <= c as int <= 0x44F then (c as int - 32) as char
    else if c as int == 0x451 then 0x401 as char
    else c
  }

  function Lower(s: string): (r: string)
    ensures |r| == |s|
    ensures forall i :: 0 <= i < |s| ==> r[i] == LowerChar(s[i])
  {
    seq(|s|, i requires 0 <= i < |s| => LowerChar(s[i]))
  }

  /** Every character of `s` satisfies `p`. */
  predicate All(s: string, p: char -> bool) {
    forall i :: 0 <= i < |s| ==> p(s[i])
  }

  // ---------------------------------------------------------------------
  // Runs, filters and trimming (the regular-expression replacements)
  // ---------------------------------------------------------------------

  /** Drops the leading run of characters satisfying `p` (`/^p+/` replaced by ""). */
  function DropWhile(s: string, p: char -> bool): (r: string)
    ensures |r| <= |s| && r == s[|s| - |r|..]
    ensures r == [] || !p(r[0])
    ensures forall i :: 0 <= i < |s| - |r| ==> p(s[i])
    decreases |s|
  {
    if s != [] && p(s[0]) then DropWhile(s[1..], p) else s
  }

  /** Drops the trailing run of characters satisfying `p` (`/p+$/` replaced by ""). */
  function DropWhileEnd(s: string, p: char -> bool): (r: string)
    ensures |r| <= |s| && r == s[..|r|]
    ensures r == [] || !p(r[|r| - 1])
    ensures forall i :: |r| <= i < |s| ==> p(s[i])
    decreases |s|
  {
    if s != [] && p(s[|s| - 1]) then DropWhileEnd(s[..|s| - 1], p) else s
  }

  /** `r` occurs in `s` at offset `k`. */
  predicate IsInfixAt(r: string, s: string, k: int) {
    0 <= k && k + |r| <= |s| && r == s[k..k + |r|]
  }

  /** The length of the leading run of characters satisfying `p`. */
  function LeadingRun(s: string, p: char -> bool): nat {
    |s| - |DropWhile(s, p)|
  }

  /** Both ends stripped (`/^p+|p+$/g` replaced by ""); the result is an infix of `s`. */
  function TrimBy(s: string, p: char -> bool): (r: string)
    ensures IsInfixAt(r, s, LeadingRun(s, p))
    ensures r == [] || (!p(r[0]) && !p(r[|r| - 1]))
  {
    var front := DropWhile(s, p);
    var r := DropWhileEnd(front, p);
    assert r == s[|s| - |front|..][..|r|];
    r
  }

  /** What holds of every character, or of every adjacent pair, holds in an infix. */
  lemma {:induction false} InfixAll(r: string, s: string, k: int, q: char -> bool)
    requires IsInfixAt(r, s, k) && All(s, q)
    ensures All(r, q)
  {
    forall i | 0 <= i < |r| ensures q(r[i]) {
      assert r[i] == s[k + i];
    }
  }

  lemma {:induction false} InfixNoAdjacent(r: string, s: string, k: int, q: char -> bool)
    requires IsInfixAt(r, s, k) && NoAdjacent(s, q)
    ensures NoAdjacent(r, q)
  {
    forall i | 0 <= i < |r| - 1 ensures !BothAt(r, i, q) {
      assert r[i] == s[k + i] && r[i + 1] == s[k + i + 1];
      assert !BothAt(s, k + i, q);
    }
  }

  /** `String.prototype.trim`. */
  function Trim(s: string): string {
    TrimBy(s, IsSpace)
  }

  /** Each maximal run of characters satisfying `p` replaced by `rep` (`/p+/g`). */
  function CollapseRuns(s: string, p: char -> bool, rep: string): (r: string)
    ensures s != [] && !p(s[0]) ==> r != [] && r[0] == s[0]
    ensures s != [] && p(s[0]) ==> |r| >= |rep| && r[..|rep|] == rep
    decreases |s|
  {
    if s == [] then []
    else if p(s[0]) then
      var rest := DropWhile(s, p);
      rep + CollapseRuns(rest, p, rep)
    else [s[0]] + CollapseRuns(s[1..], p, rep)
  }

  /** A property of `rep` and of every character outside the runs holds of the result. */
  lemma {:induction false} CollapseRunsAll(s: string, p: char -> bool, rep: string, q: char -> bool)
    requires All(rep, q)
    requires forall i :: 0 <= i < |s| && !p(s[i]) ==> q(s[i])
    ensures All(CollapseRuns(s, p, rep), q)
    decreases |s|
  {
    if s == [] {
    } else if p(s[0]) {
      var rest := DropWhile(s, p);
      assert forall i :: 0 <= i < |rest| ==> rest[i] == s[|s| - |rest| + i];
      CollapseRunsAll(rest, p, rep, q);
    } else {
      assert forall i :: 0 <= i < |s[1..]| ==> s[1..][i] == s[i + 1];
      CollapseRunsAll(s[1..], p, rep, q);
    }
  }

  /** The characters of `s` that satisfy `p`, in order (`/[^p]/g` replaced by ""). */
  function Keep(s: string, p: char -> bool): (r: string)
    ensures |r| <= |s|
    ensures All(r, p)
    ensures All(s, p) ==> r == s
    decreases |s|
  {
    if s == [] then []
    else if p(s[0]) then [s[0]] + Keep(s[1..], p)
    else Keep(s[1..], p)
  }

  /** Every character outside the key class replaced by `_` (`/[^a-zа-яё0-9_]/gi` to "_"). */
  function SanitizeChars(s: string): (r: string)
    ensures |r| == |s| && All(r, IsKeyChar)
    ensures All(s, IsKeyChar) ==> r == s
  {
    seq(|s|, i requires 0 <= i < |s| => if IsKeyChar(s[i]) then s[i] else '_')
  }

  /** The characters at `i` and `i + 1` both satisfy `p`. */
  predicate BothAt(s: string, i: int, p: char -> bool)
    requires 0 <= i < |s| - 1
  {
    p(s[i]) && p(s[i + 1])
  }

  /** No two adjacent characters both satisfy `p`. */
  predicate NoAdjacent(s: string, p: char -> bool) {
    forall i :: 0 <= i < |s| - 1 ==> !BothAt(s, i, p)
  }

  lemma {:induction false} ConsNoAdjacent(x: char, t: string, p: char -> bool)
    requires NoAdjacent(t, p)
    requires t == [] || !p(x) || !p(t[0])
    ensures NoAdjacent([x] + t, p)
  {
    var s := [x] + t;
    forall i | 0 <= i < |s| - 1 ensures !BothAt(s, i, p) {
      if i > 0 {
        assert s[i] == t[i - 1] && s[i + 1] == t[i];
        assert !BothAt(t, i - 1, p);
      }
    }
  }

  lemma {:induction false} TailNoAdjacent(s: string, p: char -> bool)
    requires s != [] && NoAdjacent(s, p)
    ensures NoAdjacent(s[1..], p)
  {
    var t := s[1..];
    forall i | 0 <= i < |t| - 1 ensures !BothAt(t, i, p) {
      assert t[i] == s[i + 1] && t[i + 1] == s[i + 2];
      assert !BothAt(s, i + 1, p);
    }
  }

  lemma {:induction false} CollapseRunsNoAdjacent(s: string, p: char -> bool, c: char)
    requires p(c)
    ensures NoAdjacent(CollapseRuns(s, p, [c]), p)
    decreases |s|
  {
    if s == [] {
    } else if p(s[0]) {
      var rest := DropWhile(s, p);
      CollapseRunsNoAdjacent(rest, p, c);
      var tail := CollapseRuns(rest, p, [c]);
      assert rest != [] ==> !p(rest[0]);
      assert tail != [] ==> !p(tail[0]);
      ConsNoAdjacent(c, tail, p);
      assert CollapseRuns(s, p, [c]) == [c] + tail;
    } else {
      CollapseRunsNoAdjacent(s[1..], p, c);
      ConsNoAdjacent(s[0], CollapseRuns(s[1..], p, [c]), p);
    }
  }

  /** Collapsing changes nothing when every `p` character already stands alone as `c`. */
  lemma {:induction false} CollapseRunsIdentity(s: string, p: char -> bool, c: char)
    requires forall i :: 0 <= i < |s| && p(s[i]) ==> s[i] == c
    requires NoAdjacent(s, p)
    ensures CollapseRuns(s, p, [c]) == s
    decreases |s|
  {
    if s != [] {
      var t := s[1..];
      OnlyAsTail(s, p, c);
      TailNoAdjacent(s, p);
      CollapseRunsIdentity(t, p, c);
      assert s == [s[0]] + t;
      if p(s[0]) {
        assert |s| == 1 || !BothAt(s, 0, p);
        CollapseRunsSingle(s[0], t, p, [c]);
      } else {
        CollapseRunsCons(s[0], t, p, [c]);
      }
    }
  }

  lemma {:induction false} OnlyAsTail(s: string, p: char -> bool, c: char)
    requires s != [] && forall i :: 0 <= i < |s| && p(s[i]) ==> s[i] == c
    ensures forall i :: 0 <= i < |s[1..]| && p(s[1..][i]) ==> s[1..][i] == c
  {
    var t := s[1..];
    forall i | 0 <= i < |t| && p(t[i]) ensures t[i] == c {
      assert t[i] == s[i + 1];
    }
  }

  /** With no `p` characters there is nothing to collapse. */
  lemma {:induction false} CollapseRunsNone(s: string, p: char -> bool, rep: string)
    requires forall i :: 0 <= i < |s| ==> !p(s[i])
    ensures CollapseRuns(s, p, rep) == s
    decreases |s|
  {
    if s != [] {
      CollapseRunsNone(s[1..], p, rep);
    }
  }

  lemma {:induction false} TrimByIdentity(s: string, p: char -> bool)
    requires s == [] || (!p(s[0]) && !p(s[|s| - 1]))
    ensures TrimBy(s, p) == s
  {
  }

  // ---------------------------------------------------------------------
  // Habit keys and tag prefixes
  // ---------------------------------------------------------------------

  /** The shape of a habit key: key characters only, no `_` at either end, no `__`. */
  predicate IsHabitKey(k: string) {
    && All(k, IsKeyChar)
    && (k != [] ==> k[0] != '_' && k[|k| - 1] != '_')
    && NoAdjacent(k, IsUnderscore)
  }

  /** The key form of `k` is `k` itself. */
  lemma {:induction false} KeyLowerIdentity(k: string)
    requires All(k, IsKeyChar)
    ensures Lower(k) == k
  {
  }

  /**
   * `toHabitKey` (plugin/src/habit-core.ts:199-206): lower-case, every whitespace run to
   * `_`, drop characters outside `[a-zа-яё0-9_]`, collapse `_` runs, trim `_` at both ends.
   * The `i` flag of the filter makes no difference once the string is lower-cased.
   */
  function ToHabitKey(value: string): (key: string)
    ensures IsHabitKey(key)
  {
    var lower := Lower(value);
    var spaced := CollapseRuns(lower, IsSpace, "_");
    var kept := Keep(spaced, IsKeyChar);
    var single := CollapseRuns(kept, IsUnderscore, "_");
    var key := TrimBy(single, IsUnderscore);
    KeyShape(kept, single, key);
    key
  }

  /** Collapsing `_` runs of key characters and trimming `_` yields a habit key. */
  lemma {:induction false} KeyShape(kept: string, single: string, key: string)
    requires All(kept, IsKeyChar)
    requires single == CollapseRuns(kept, IsUnderscore, "_")
    requires key == TrimBy(single, IsUnderscore)
    ensures IsHabitKey(key)
  {
    CollapsedKeyChars(kept);
    TrimmedKey(single);
  }

  lemma {:induction false} CollapsedKeyChars(kept: string)
    requires All(kept, IsKeyChar)
    ensures All(CollapseRuns(kept, IsUnderscore, "_"), IsKeyChar)
    ensures NoAdjacent(CollapseRuns(kept, IsUnderscore, "_"), IsUnderscore)
  {
    assert "_" == ['_'];
    CollapseRunsNoAdjacent(kept, IsUnderscore, '_');
    CollapseRunsAll(kept, IsUnderscore, "_", IsKeyChar);
  }

  lemma {:induction false} TrimmedKey(single: string)
    requires All(single, IsKeyChar) && NoAdjacent(single, IsUnderscore)
    ensures IsHabitKey(TrimBy(single, IsUnderscore))
  {
    var key := TrimBy(single, IsUnderscore);
    var k := LeadingRun(single, IsUnderscore);
    InfixAll(key, single, k, IsKeyChar);
    InfixNoAdjacent(key, single, k, IsUnderscore);
  }

  /** A habit key is a fixed point of `toHabitKey`. */
  lemma {:induction false} ToHabitKeyFixesKeys(k: string)
    requires IsHabitKey(k)
    ensures ToHabitKey(k) == k
  {
    KeyLowerIdentity(k);
    assert forall i :: 0 <= i < |k| ==> !IsSpace(k[i]);
    CollapseRunsNone(k, IsSpace, "_");
    CollapseRunsIdentity(k, IsUnderscore, '_');
    TrimByIdentity(k, IsUnderscore);
  }

  /** `toHabitKey` is idempotent. */
  lemma {:induction false} ToHabitKeyIdempotent(value: string)
    ensures ToHabitKey(ToHabitKey(value)) == ToHabitKey(value)
  {
    ToHabitKeyFixesKeys(ToHabitKey(value));
  }

  /** Lower-casing first changes nothing: `toHabitKey` ignores case. */
  lemma {:induction false} ToHabitKeyIgnoresCase(value: string)
    ensures ToHabitKey(Lower(value)) == ToHabitKey(value)
  {
    LowerIdempotent(value);
  }

  lemma {:induction false} LowerIdempotent(s: string)
    ensures Lower(Lower(s)) == Lower(s)
  {
  }

  /** The tail of the key pipeline leaves a habit key as it is. */
  lemma {:induction false} KeyTailIdentity(k: string)
    requires IsHabitKey(k)
    ensures TrimBy(CollapseRuns(Keep(k, IsKeyChar), IsUnderscore, "_"), IsUnderscore) == k
  {
    assert "_" == ['_'];
    CollapseRunsIdentity(k, IsUnderscore, '_');
    TrimByIdentity(k, IsUnderscore);
  }

  /**
   * Two words joined by whitespace become the words joined by `_`: "morning stretch"
   * gives "morning_stretch".
   */
  lemma {:induction false} ToHabitKeyTwoWords(a: string, sp: char, b: string)
    requires a != [] && b != [] && All(a, IsWordChar) && All(b, IsWordChar)
    requires IsSpace(sp)
    ensures ToHabitKey(a + [sp] + b) == a + "_" + b
  {
    var v := a + [sp] + b;
    assert Lower(v) == v by {
      WordsLowerFixed(a, sp, b);
    }
    CollapseRunsTwoWords(a, b, sp);
    JoinIsKey(a, b);
    KeyTailIdentity(a + "_" + b);
  }

  /** The title "Morning Stretch" has the key "morning_stretch". */
  lemma {:induction false} MorningStretchKey()
    ensures ToHabitKey("Morning Stretch") == "morning_stretch"
  {
    var title := "Morning Stretch";
    var words := "morning" + [' '] + "stretch";
    MorningStretchLower();
    ToHabitKeyIgnoresCase(title);
    MorningStretchWords();
    ToHabitKeyTwoWords("morning", ' ', "stretch");
    MorningStretchJoined();
  }

  lemma MorningStretchJoined()
    ensures "morning" + "_" + "stretch" == "morning_stretch"
  {
  }

  lemma MorningStretchLower()
    ensures Lower("Morning Stretch") == "morning" + [' '] + "stretch"
  {
    var s := "Morning Stretch";
    var t := "morning" + [' '] + "stretch";
    forall i | 0 <= i < |s| ensures Lower(s)[i] == t[i] {
    }
  }

  lemma MorningStretchWords()
    ensures All("morning", IsWordChar) && All("stretch", IsWordChar)
  {
  }

  lemma {:induction false} WordsLowerFixed(a: string, x: char, b: string)
    requires All(a, IsWordChar) && All(b, IsWordChar) && LowerChar(x) == x
    ensures Lower(a + [x] + b) == a + [x] + b
  {
    var v := a + [x] + b;
    forall i | 0 <= i < |v| ensures LowerChar(v[i]) == v[i] {
      if i < |a| {
        assert v[i] == a[i] && IsWordChar(a[i]);
      } else if i > |a| {
        assert v[i] == b[i - |a| - 1] && IsWordChar(b[i - |a| - 1]);
      }
    }
  }

  /** A key character other than `_`. */
  predicate IsWordChar(c: char) { IsKeyChar(c) && c != '_' }

  /** Two words of key characters joined by one `_` form a habit key. */
  lemma {:induction false} JoinIsKey(a: string, b: string)
    requires a != [] && b != [] && All(a, IsWordChar) && All(b, IsWordChar)
    ensures IsHabitKey(a + "_" + b)
  {
    var s := a + "_" + b;
    assert forall i :: 0 <= i < |s| ==> (i < |a| ==> s[i] == a[i]) && (i > |a| ==> s[i] == b[i - |a| - 1]);
    forall i | 0 <= i < |s| - 1 ensures !BothAt(s, i, IsUnderscore) {
      if i < |a| {
        assert IsWordChar(a[i]);
      } else {
        assert IsWordChar(b[i - |a|]);
      }
    }
  }

  /** One character outside the run class is copied. */
  lemma {:induction false} CollapseRunsCons(x: char, t: string, p: char -> bool, rep: string)
    requires !p(x)
    ensures CollapseRuns([x] + t, p, rep) == [x] + CollapseRuns(t, p, rep)
  {
    assert ([x] + t)[1..] == t;
  }

  /** A run of length one is replaced by `rep`. */
  lemma {:induction false} CollapseRunsSingle(x: char, t: string, p: char -> bool, rep: string)
    requires p(x) && (t == [] || !p(t[0]))
    ensures CollapseRuns([x] + t, p, rep) == rep + CollapseRuns(t, p, rep)
  {
    assert ([x] + t)[1..] == t;
    assert DropWhile(t, p) == t;
  }

  /** Word characters are not whitespace. */
  lemma {:induction false} WordNotSpace(w: string)
    requires All(w, IsWordChar)
    ensures forall i :: 0 <= i < |w| ==> !IsSpace(w[i])
  {
    forall i | 0 <= i < |w| ensures !IsSpace(w[i]) {
      assert IsWordChar(w[i]);
    }
  }

  lemma {:induction false} AllTail(w: string, q: char -> bool)
    requires w != [] && All(w, q)
    ensures All(w[1..], q)
  {
    forall i | 0 <= i < |w[1..]| ensures q(w[1..][i]) {
      assert w[1..][i] == w[i + 1];
    }
  }

  lemma {:induction false} CollapseRunsSpaceWord(sp: char, b: string)
    requires IsSpace(sp) && b != [] && All(b, IsWordChar)
    ensures CollapseRuns([sp] + b, IsSpace, "_") == "_" + b
  {
    assert IsWordChar(b[0]);
    CollapseRunsSingle(sp, b, IsSpace, "_");
    WordNotSpace(b);
    CollapseRunsNone(b, IsSpace, "_");
  }

  lemma {:induction false} CollapseRunsTwoWords(a: string, b: string, sp: char)
    requires IsSpace(sp)
    requires All(a, IsWordChar) && All(b, IsWordChar)
    requires b != []
    ensures CollapseRuns(a + [sp] + b, IsSpace, "_") == a + "_" + b
    decreases |a|
  {
    if a == [] {
      assert a + [sp] + b == [sp] + b;
      CollapseRunsSpaceWord(sp, b);
      assert a + "_" + b == "_" + b;
    } else {
      assert IsWordChar(a[0]);
      assert a + [sp] + b == [a[0]] + (a[1..] + [sp] + b);
      CollapseRunsCons(a[0], a[1..] + [sp] + b, IsSpace, "_");
      AllTail(a, IsWordChar);
      CollapseRunsTwoWords(a[1..], b, sp);
      assert a + "_" + b == [a[0]] + (a[1..] + "_" + b);
    }
  }

  /**
   * `normalizeTagPrefix` (plugin/src/habit-core.ts:183-191): trim and lower-case; blank
   * gives "habit"; otherwise characters outside the key class become `_`, `_` runs collapse
   * and both ends are trimmed, again falling back to "habit" when nothing is left.
   */
  function NormalizeTagPrefix(value: string): (prefix: string)
    ensures prefix != []
    ensures IsHabitKey(prefix)
    ensures Trim(value) == [] ==> prefix == "habit"
  {
    var base := Lower(Trim(value));
    HabitIsKey();
    if base == [] then "habit"
    else
      var sanitized := SanitizePrefix(base);
      if sanitized == [] then "habit" else sanitized
  }

  lemma {:induction false} HabitIsKey()
    ensures IsHabitKey("habit")
  {
    assert All("habit", IsWordChar);
    var s := "habit";
    forall i | 0 <= i < |s| - 1 ensures !BothAt(s, i, IsUnderscore) {
      assert IsWordChar(s[i]);
    }
  }

  /** The non-blank branch of `normalizeTagPrefix`: sanitise, collapse `_` runs, trim `_`. */
  function SanitizePrefix(base: string): (sanitized: string)
    ensures IsHabitKey(sanitized)
  {
    var replaced := SanitizeChars(base);
    var single := CollapseRuns(replaced, IsUnderscore, "_");
    KeyShape(replaced, single, TrimBy(single, IsUnderscore));
    TrimBy(single, IsUnderscore)
  }

  /** A prefix that is already normal is kept as it is. */
  lemma {:induction false} NormalizeTagPrefixFixesKeys(k: string)
    requires k != [] && IsHabitKey(k)
    ensures NormalizeTagPrefix(k) == k
  {
    assert forall i :: 0 <= i < |k| ==> !IsSpace(k[i]);
    TrimByIdentity(k, IsSpace);
    KeyLowerIdentity(k);
    CollapseRunsIdentity(k, IsUnderscore, '_');
    TrimByIdentity(k, IsUnderscore);
  }

  /**
   * Two words around one character outside the key class become the words joined by `_`:
   * "r!it" gives "r_it".
   */
  lemma {:induction false} NormalizeTagPrefixTwoWords(a: string, x: char, b: string)
    requires a != [] && b != [] && All(a, IsWordChar) && All(b, IsWordChar)
    requires LowerChar(x) == x && !IsKeyChar(x)
    ensures NormalizeTagPrefix(a + [x] + b) == a + "_" + b
  {
    var v := a + [x] + b;
    assert IsWordChar(v[0]) && IsWordChar(v[|v| - 1]);
    TrimByIdentity(v, IsSpace);
    WordsLowerFixed(a, x, b);
    SanitizePrefixJoin(a, x, b);
  }

  /** The prefix "  R!it-Ual  " is normalised to "r_it_ual". */
  lemma {:induction false} RitualPrefix()
    ensures NormalizeTagPrefix("  R!it-Ual  ") == "r_it_ual"
  {
    RitualTrim();
    RitualLower();
    RitualSanitized();
    RitualIsKey();
    SanitizedKeyKept("r!it-ual");
  }

  /** When replacing the disallowed characters already gives a key, nothing else changes. */
  lemma {:induction false} SanitizedKeyKept(base: string)
    requires IsHabitKey(SanitizeChars(base))
    ensures SanitizePrefix(base) == SanitizeChars(base)
  {
    var k := SanitizeChars(base);
    assert "_" == ['_'];
    CollapseRunsIdentity(k, IsUnderscore, '_');
    TrimByIdentity(k, IsUnderscore);
  }

  lemma RitualTrim()
    ensures Trim("  R!it-Ual  ") == "R!it-Ual"
  {
    RitualFront();
    RitualBack();
  }

  lemma RitualFront()
    ensures DropWhile("  R!it-Ual  ", IsSpace) == "R!it-Ual  "
  {
    var s := "  R!it-Ual  ";
    assert !IsSpace(s[2]);
    assert |DropWhile(s, IsSpace)| == |s| - 2;
  }

  lemma RitualBack()
    ensures DropWhileEnd("R!it-Ual  ", IsSpace) == "R!it-Ual"
  {
    var front := "R!it-Ual  ";
    assert !IsSpace(front[7]);
    assert |DropWhileEnd(front, IsSpace)| == 8;
  }

  lemma RitualLower()
    ensures Lower("R!it-Ual") == "r!it-ual"
  {
    var s := "R!it-Ual";
    forall i | 0 <= i < |s| ensures Lower(s)[i] == "r!it-ual"[i] {
    }
  }

  lemma RitualSanitized()
    ensures SanitizeChars("r!it-ual") == "r_it_ual"
  {
    var s := "r!it-ual";
    forall i | 0 <= i < |s| ensures SanitizeChars(s)[i] == "r_it_ual"[i] {
    }
  }

  lemma RitualIsKey()
    ensures IsHabitKey("r_it_ual")
  {
    var k := "r_it_ual";
    assert All(k, IsKeyChar);
    forall i | 0 <= i < |k| - 1 ensures !BothAt(k, i, IsUnderscore) {
    }
  }

  lemma {:induction false} SanitizePrefixJoin(a: string, x: char, b: string)
    requires a != [] && b != [] && All(a, IsWordChar) && All(b, IsWordChar)
    requires !IsKeyChar(x)
    ensures SanitizePrefix(a + [x] + b) == a + "_" + b
  {
    SanitizeJoin(a, x, b);
    JoinIsKey(a, b);
    assert "_" == ['_'];
    CollapseRunsIdentity(a + "_" + b, IsUnderscore, '_');
    TrimByIdentity(a + "_" + b, IsUnderscore);
  }

  lemma {:induction false} SanitizeJoin(a: string, x: char, b: string)
    requires All(a, IsWordChar) && All(b, IsWordChar) && !IsKeyChar(x)
    ensures SanitizeChars(a + [x] + b) == a + "_" + b
  {
    var v := a + [x] + b;
    var w := a + "_" + b;
    forall i | 0 <= i < |v| ensures SanitizeChars(v)[i] == w[i] {
      if i < |a| {
        assert v[i] == a[i] == w[i] && IsWordChar(a[i]);
      } else if i > |a| {
        assert v[i] == b[i - |a| - 1] == w[i] && IsWordChar(b[i - |a| - 1]);
      }
    }
  }

  // ---------------------------------------------------------------------
  // Other normalisers
  // ---------------------------------------------------------------------

  /** `trimSlashes` (plugin/src/habit-core.ts:166-168): `/^\/+|\/+$/g` replaced by "". */
  function TrimSlashes(path: string): (r: string)
    ensures r == [] || (r[0] != '/' && r[|r| - 1] != '/')
    ensures IsInfixAt(r, path, LeadingRun(path, IsSlash))
    ensures (path == [] || (path[0] != '/' && path[|path| - 1] != '/')) ==> r == path
  {
    TrimBy(path, IsSlash)
  }

  lemma {:induction false} TrimSlashesIdempotent(path: string)
    ensures TrimSlashes(TrimSlashes(path)) == TrimSlashes(path)
  {
  }

  /** `s.startsWith(p)`. */
  predicate StartsWith(s: string, p: string) {
    |p| <= |s| && s[..|p|] == p
  }

  function EndsWith(s: string, suffix: string): bool {
    |suffix| <= |s| && s[|s| - |suffix|..] == suffix
  }

  /** `ensureTrailingNewline` (plugin/src/habit-core.ts:161-164). */
  function EnsureTrailingNewline(value: string): (r: string)
    ensures EndsWith(r, "\n")
    ensures |value| <= |r| <= |value| + 1 && r[..|value|] == value
    ensures EndsWith(value, "\n") ==> r == value
  {
    if EndsWith(value, "\n") then value else value + "\n"
  }

  lemma {:induction false} EnsureTrailingNewlineIdempotent(value: string)
    ensures EnsureTrailingNewline(EnsureTrailingNewline(value)) == EnsureTrailingNewline(value)
  {
  }

  /**
   * `normalizeWhitespace` (plugin/src/habit-core.ts:170-172): trim, then every whitespace
   * run becomes one space.
   */
  function NormalizeWhitespace(value: string): (r: string)
    ensures forall i :: 0 <= i < |r| && IsSpace(r[i]) ==> r[i] == ' '
    ensures NoAdjacent(r, IsSpace)
    ensures r == [] || (!IsSpace(r[0]) && !IsSpace(r[|r| - 1]))
    ensures r == [] <==> All(value, IsSpace)
  {
    var t := Trim(value);
    var r := CollapseRuns(t, IsSpace, " ");
    CollapseRunsNoAdjacent(t, IsSpace, ' ');
    CollapseRunsAll(t, IsSpace, " ", c => IsSpace(c) ==> c == ' ');
    TrimBlankIffAllSpace(value);
    CollapseRunsLast(t, IsSpace, " ");
    r
  }

  lemma {:induction false} TrimBlankIffAllSpace(value: string)
    ensures Trim(value) == [] <==> All(value, IsSpace)
  {
    var front := DropWhile(value, IsSpace);
    if front != [] {
      assert !IsSpace(front[0]);
      assert front[0] == value[|value| - |front|];
      assert DropWhileEnd(front, IsSpace) != [];
    }
  }

  /** Collapsing keeps a last character outside the run class. */
  lemma {:induction false} CollapseRunsLast(s: string, p: char -> bool, rep: string)
    ensures s != [] && !p(s[|s| - 1]) ==>
      CollapseRuns(s, p, rep) != [] &&
      CollapseRuns(s, p, rep)[|CollapseRuns(s, p, rep)| - 1] == s[|s| - 1]
    decreases |s|
  {
    if s == [] || p(s[|s| - 1]) {
    } else if p(s[0]) {
      var rest := DropWhile(s, p);
      assert rest != [] && rest[|rest| - 1] == s[|s| - 1];
      CollapseRunsLast(rest, p, rep);
    } else if |s| > 1 {
      assert s[1..][|s[1..]| - 1] == s[|s| - 1];
      CollapseRunsLast(s[1..], p, rep);
    }
  }

  /** A normalised string is a fixed point of `normalizeWhitespace`. */
  lemma {:induction false} NormalizeWhitespaceIdempotent(value: string)
    ensures NormalizeWhitespace(NormalizeWhitespace(value)) == NormalizeWhitespace(value)
  {
    var r := NormalizeWhitespace(value);
    TrimByIdentity(r, IsSpace);
    CollapseRunsIdentity(r, IsSpace, ' ');
  }

  /** `capitalizeFirst` (plugin/src/habit-core.ts:174-177). */
  function CapitalizeFirst(value: string): (r: string)
    ensures |r| == |value|
    ensures value != [] ==> r[0] == UpperChar(value[0]) && r[1..] == value[1..]
  {
    if value == [] then value else [UpperChar(value[0])] + value[1..]
  }

  // ---------------------------------------------------------------------
  // Decimal formatting
  // ---------------------------------------------------------------------

  function DigitChar(d: nat): (c: char)
    requires d < 10
    ensures IsDigit(c) && c as int - '0' as int == d
  {
    ('0' as int + d) as char
  }

  /** The decimal digits of a string read as a number. */
  function DigitsValue(s: string): nat
    requires All(s, IsDigit)
  {
    if s == [] then 0 else DigitsValue(s[..|s| - 1]) * 10 + (s[|s| - 1] as int - '0' as int)
  }

  /** `String(n)` for a non-negative integer. */
  function NatToString(n: nat): (s: string)
    ensures |s| >= 1 && All(s, IsDigit)
    ensures n < 10 <==> |s| == 1
    ensures 10 <= n < 100 <==> |s| == 2
    decreases n
  {
    if n < 10 then [DigitChar(n)] else NatToString(n / 10) + [DigitChar(n % 10)]
  }

  lemma {:induction false} NatToStringRoundTrip(n: nat)
    ensures DigitsValue(NatToString(n)) == n
    decreases n
  {
    var s := NatToString(n);
    if n >= 10 {
      NatToStringRoundTrip(n / 10);
      assert s[..|s| - 1] == NatToString(n / 10);
    }
  }

  lemma {:induction false} IntRoundTrip(n: int)
    ensures n >= 0 ==> DigitsValue(NatToString(n)) == n
  {
    if n >= 0 {
      NatToStringRoundTrip(n);
    }
  }

  /** `String(n)` for an integer. */
  function IntToString(n: int): (s: string)
    ensures s != []
    ensures n >= 0 ==> All(s, IsDigit)
    ensures n < 0 ==> s[0] == '-'
  {
    if n < 0 then "-" + NatToString(-n) else NatToString(n)
  }

  lemma {:induction false} IntToStringInjective(a: int, b: int)
    requires IntToString(a) == IntToString(b)
    ensures a == b
  {
    if a < 0 && b < 0 {
      assert NatToString(-a) == IntToString(a)[1..] == NatToString(-b);
      NatToStringRoundTrip(-a);
      NatToStringRoundTrip(-b);
    } else if a >= 0 && b >= 0 {
      NatToStringRoundTrip(a);
      NatToStringRoundTrip(b);
    }
  }

  /** `pad2` (plugin/src/habit-core.ts:153-155): `String(n).padStart(2, "0")`. */
  function Pad2(n: int): (r: string)
    ensures |r| >= 2
    ensures 0 <= n < 100 ==> |r| == 2 && All(r, IsDigit) && DigitsValue(r) == n
    ensures (n < 0 || n >= 10) ==> r == IntToString(n)
  {
    var s := IntToString(n);
    IntRoundTrip(n);
    if |s| < 2 then "0" + s else s
  }

  /** `isoOf` (plugin/src/habit-core.ts:304-306): `y-MM-DD`. */
  function IsoOf(y: int, mo: int, d: int): (iso: string)
    ensures 0 <= mo < 100 && 0 <= d < 100 ==> |iso| == |IntToString(y)| + 6
  {
    IntToString(y) + "-" + Pad2(mo) + "-" + Pad2(d)
  }

  /** Two concatenations with equally long right parts agree part by part. */
  lemma {:induction false} SplitSuffix(a1: string, b1: string, a2: string, b2: string)
    requires a1 + b1 == a2 + b2 && |b1| == |b2|
    ensures a1 == a2 && b1 == b2
  {
    assert a1 == (a1 + b1)[..|a1|];
    assert a2 == (a2 + b2)[..|a2|];
    assert b1 == (a1 + b1)[|a1|..];
    assert b2 == (a2 + b2)[|a2|..];
  }

  /** Distinct calendar days give distinct ISO strings. */
  lemma {:induction false} IsoOfInjective(y1: int, mo1: int, d1: int, y2: int, mo2: int, d2: int)
    requires 0 <= mo1 < 100 && 0 <= d1 < 100 && 0 <= mo2 < 100 && 0 <= d2 < 100
    requires IsoOf(y1, mo1, d1) == IsoOf(y2, mo2, d2)
    ensures y1 == y2 && mo1 == mo2 && d1 == d2
  {
    var m1, m2, e1, e2 := Pad2(mo1), Pad2(mo2), Pad2(d1), Pad2(d2);
    var y1s, y2s := IntToString(y1), IntToString(y2);
    SplitSuffix(y1s + "-" + m1 + "-", e1, y2s + "-" + m2 + "-", e2);
    SplitSuffix(y1s + "-" + m1, "-", y2s + "-" + m2, "-");
    SplitSuffix(y1s + "-", m1, y2s + "-", m2);
    SplitSuffix(y1s, "-", y2s, "-");
    IntToStringInjective(y1, y2);
  }

  /** `nowHHMM` (plugin/src/habit-core.ts:157-159) for the given hour and minute. */
  function HHMM(hours: int, minutes: int): (r: string)
    requires 0 <= hours < 24 && 0 <= minutes < 60
    ensures |r| == 5 && r[2] == ':'
    ensures All(r[..2], IsDigit) && DigitsValue(r[..2]) == hours
    ensures All(r[3..], IsDigit) && DigitsValue(r[3..]) == minutes
  {
    var r := Pad2(hours) + ":" + Pad2(minutes);
    assert r[..2] == Pad2(hours) && r[3..] == Pad2(minutes);
    r
  }
}
