/** Hand-written scanners for the handful of regular expressions the line handlers use.
    Each is written as the leftmost-match search that JavaScript's engine performs. */
module Scan {
  import opened Js

  /** The character class `[0-9.]` (also `[\d.]`). */
  predicate IsNumChar(c: char)
  {
    '0' <= c <= '9' || c == '.'
  }

  /** JavaScript's `\s`. */
  predicate IsJsSpace(c: char)
  {
    c == ' ' || c == '\t' || c == '\n' || c == '\U{000B}' || c == '\U{000C}' || c == '\r'
    || c == '\U{00A0}' || c == '\U{1680}' || ('\U{2000}' <= c <= '\U{200A}')
    || c == '\U{2028}' || c == '\U{2029}' || c == '\U{202F}' || c == '\U{205F}'
    || c == '\U{3000}' || c == '\U{FEFF}'
  }

  /** The characters `.` does not match. */
  predicate IsLineTerminator(c: char)
  {
    c == '\n' || c == '\r' || c == '\U{2028}' || c == '\U{2029}'
  }

  /** `(s.match(/c/g) || []).length`: how often `c` occurs in `s`. */
  function Count(s: string, c: char): nat
  {
    |Filter(s, x => x == c)|
  }

  /** End of the longest run of `P`-characters starting at `i` (what a greedy `P+` reaches). */
  function RunEnd(s: string, i: nat, P: char -> bool): (j: nat)
    requires i <= |s|
    ensures i <= j <= |s|
    ensures forall k :: i <= k < j ==> P(s[k])
    ensures j == |s| || !P(s[j])
    decreases |s| - i
  {
    if i < |s| && P(s[i]) then RunEnd(s, i + 1, P) else i
  }

  /** First position at or after `i` holding a `P`-character, or `|s|`. */
  function NextFrom(s: string, i: nat, P: char -> bool): (k: nat)
    requires i <= |s|
    ensures i <= k <= |s|
    ensures k < |s| ==> P(s[k])
    ensures forall j :: i <= j < k ==> !P(s[j])
    decreases |s| - i
  {
    if i == |s| || P(s[i]) then i else NextFrom(s, i + 1, P)
  }

  /** All matches of `/(P+)/g` from position `i` on, in order. */
  function RunsFrom(s: string, i: nat, P: char -> bool): seq<string>
    requires i <= |s|
    decreases |s| - i
  {
    var k := NextFrom(s, i, P);
    if k == |s| then []
    else
      var e := RunEnd(s, k, P);
      [s[k..e]] + RunsFrom(s, e, P)
  }

  /** `s.match(/(P+)/g)`, with no match read as the empty list. */
  function Runs(s: string, P: char -> bool): seq<string>
  {
    RunsFrom(s, 0, P)
  }

  /** Concatenation of a list of strings. */
  function Flatten(parts: seq<string>): string
  {
    if |parts| == 0 then "" else parts[0] + Flatten(parts[1..])
  }

  lemma FilterNone(s: string, P: char -> bool)
    requires forall k :: 0 <= k < |s| ==> !P(s[k])
    ensures Filter(s, P) == []
  {
  }

  lemma FilterAll(s: string, P: char -> bool)
    requires forall k :: 0 <= k < |s| ==> P(s[k])
    ensures Filter(s, P) == s
  {
  }

  /** Nothing between `i` and the next `P`-character survives the filter. */
  lemma FilterGap(s: string, i: nat, P: char -> bool)
    requires i <= |s|
    ensures Filter(s[i..NextFrom(s, i, P)], P) == []
  {
    FilterNone(s[i..NextFrom(s, i, P)], P);
  }

  /** A whole run survives the filter. */
  lemma FilterRun(s: string, k: nat, P: char -> bool)
    requires k <= |s|
    ensures Filter(s[k..RunEnd(s, k, P)], P) == s[k..RunEnd(s, k, P)]
  {
    FilterAll(s[k..RunEnd(s, k, P)], P);
  }

  /** Every match of `/(P+)/g` is a non-empty run of `P`-characters. */
  lemma {:induction false} RunsFromAreRuns(s: string, i: nat, P: char -> bool)
    requires i <= |s|
    ensures forall r <- RunsFrom(s, i, P) :: |r| > 0 && forall c <- r :: P(c)
    decreases |s| - i
  {
    var k := NextFrom(s, i, P);
    if k < |s| {
      var e := RunEnd(s, k, P);
      RunsFromAreRuns(s, e, P);
      assert forall c <- s[k..e] :: P(c);
    }
  }

  /** Filtering from `i` keeps the next run whole and then continues after it. */
  lemma FilterAtRun(s: string, i: nat, P: char -> bool)
    requires i <= |s| && NextFrom(s, i, P) < |s|
    ensures Filter(s[i..], P)
      == s[NextFrom(s, i, P)..RunEnd(s, NextFrom(s, i, P), P)] + Filter(s[RunEnd(s, NextFrom(s, i, P), P)..], P)
  {
    var k := NextFrom(s, i, P);
    var e := RunEnd(s, k, P);
    var gap, run, tail := s[i..k], s[k..e], s[e..];
    assert s[k..] == run + tail;
    assert s[i..] == gap + s[k..];
    calc {
      Filter(s[i..], P);
      Filter(gap + (run + tail), P);
      { FilterAppend(gap, run + tail, P); }
      Filter(gap, P) + Filter(run + tail, P);
      { FilterGap(s, i, P); }
      Filter(run + tail, P);
      { FilterAppend(run, tail, P); }
      Filter(run, P) + Filter(tail, P);
      { FilterRun(s, k, P); }
      run + Filter(tail, P);
    }
  }

  /** Together the matches of `/(P+)/g` are exactly the `P`-characters of the string, in order. */
  lemma {:induction false} RunsFromCover(s: string, i: nat, P: char -> bool)
    requires i <= |s|
    ensures Flatten(RunsFrom(s, i, P)) == Filter(s[i..], P)
    decreases |s| - i
  {
    var k := NextFrom(s, i, P);
    if k == |s| {
      FilterGap(s, i, P);
      assert s[i..] == s[i..k];
    } else {
      var e := RunEnd(s, k, P);
      var rest := RunsFrom(s, e, P);
      RunsFromCover(s, e, P);
      FlattenCons(s[k..e], rest);
      FilterAtRun(s, i, P);
    }
  }

  lemma FlattenCons(x: string, rest: seq<string>)
    ensures Flatten([x] + rest) == x + Flatten(rest)
  {
    assert ([x] + rest)[1..] == rest;
  }

  /** The matches of `/(P+)/g` are non-empty runs of `P`-characters, and together they are
      exactly the `P`-characters of the string, in order. */
  lemma RunsCharacterised(s: string, P: char -> bool)
    ensures Flatten(Runs(s, P)) == Filter(s, P)
    ensures forall r <- Runs(s, P) :: |r| > 0 && forall c <- r :: P(c)
  {
    RunsFromCover(s, 0, P);
    RunsFromAreRuns(s, 0, P);
    assert s[0..] == s;
  }

  /** `NextFrom` is the first `P`-position: any position with that property is it. */
  lemma NextFromIs(s: string, i: nat, k: nat, P: char -> bool)
    requires i <= k <= |s|
    requires forall j :: i <= j < k ==> !P(s[j])
    requires k == |s| || P(s[k])
    ensures NextFrom(s, i, P) == k
  {
  }

  /** `RunEnd` is the end of the run: any end with that property is it. */
  lemma RunEndIs(s: string, i: nat, e: nat, P: char -> bool)
    requires i <= e <= |s|
    requires forall j :: i <= j < e ==> P(s[j])
    requires e == |s| || !P(s[e])
    ensures RunEnd(s, i, P) == e
  {
  }

  /** `s` holds `y` from position `off` to its end. */
  predicate HoldsAt(s: string, off: nat, y: string)
  {
    off <= |s| && s[off..] == y
  }

  lemma RunEndAt(s: string, off: nat, y: string, i: nat, P: char -> bool)
    requires HoldsAt(s, off, y) && i <= |y|
    ensures RunEnd(s, off + i, P) == off + RunEnd(y, i, P)
  {
    var e := RunEnd(y, i, P);
    forall j | off + i <= j < off + e ensures P(s[j]) {
      assert s[off + (j - off)] == y[j - off];
    }
    if e < |y| {
      assert s[off + e] == y[e];
    }
    RunEndIs(s, off + i, off + e, P);
  }

  lemma SliceAt(s: string, off: nat, y: string, i: nat, e: nat)
    requires HoldsAt(s, off, y) && i <= e <= |y|
    ensures s[off + i..off + e] == y[i..e]
  {
    forall j | 0 <= j < e - i ensures s[off + i..off + e][j] == y[i..e][j] {
      assert s[off + (i + j)] == y[i + j];
    }
  }

  /** The runs after a position depend only on the text from there on. */
  lemma {:induction false} RunsFromAt(s: string, off: nat, y: string, i: nat, P: char -> bool)
    requires HoldsAt(s, off, y) && i <= |y|
    ensures RunsFrom(s, off + i, P) == RunsFrom(y, i, P)
    decreases |y| - i, 2
  {
    if i == |y| {
      RunsFromEmpty(s, off + i, P);
      RunsFromEmpty(y, i, P);
    } else if !P(y[i]) {
      SkipAt(s, off, y, i, P);
    } else {
      RunAt(s, off, y, i, P);
    }
  }

  /** Helper: `RunsFromAt` where a character outside `P` comes next. */
  lemma {:induction false} SkipAt(s: string, off: nat, y: string, i: nat, P: char -> bool)
    requires HoldsAt(s, off, y) && i < |y| && !P(y[i])
    ensures RunsFrom(s, off + i, P) == RunsFrom(y, i, P)
    decreases |y| - i, 1
  {
    RunsFromAt(s, off, y, i + 1, P);
    assert s[off + i] == y[i];
    SkipStep(s, off, y, i, P);
  }

  /** Helper: `RunsFromAt` where a run comes next. */
  lemma {:induction false} RunAt(s: string, off: nat, y: string, i: nat, P: char -> bool)
    requires HoldsAt(s, off, y) && i < |y| && P(y[i])
    ensures RunsFrom(s, off + i, P) == RunsFrom(y, i, P)
    decreases |y| - i, 1
  {
    RunsFromAt(s, off, y, RunEnd(y, i, P), P);
    RunEndAt(s, off, y, i, P);
    SliceAt(s, off, y, i, RunEnd(y, i, P));
    assert s[off + i] == y[i];
    RunStep(s, off, y, i, P);
  }

  /** Helper: the step of `RunsFromAt` over a character outside `P`. */
  lemma SkipStep(s: string, off: nat, y: string, i: nat, P: char -> bool)
    requires off + i < |s| && i < |y| && !P(s[off + i]) && !P(y[i])
    requires RunsFrom(s, off + (i + 1), P) == RunsFrom(y, i + 1, P)
    ensures RunsFrom(s, off + i, P) == RunsFrom(y, i, P)
  {
    RunsFromSkip(s, off + i, P);
    RunsFromSkip(y, i, P);
  }

  /** Helper: the step of `RunsFromAt` over a whole run. */
  lemma RunStep(s: string, off: nat, y: string, i: nat, P: char -> bool)
    requires off + i < |s| && i < |y| && P(s[off + i]) && P(y[i])
    requires RunEnd(s, off + i, P) == off + RunEnd(y, i, P)
    requires s[off + i..off + RunEnd(y, i, P)] == y[i..RunEnd(y, i, P)]
    requires RunsFrom(s, off + RunEnd(y, i, P), P) == RunsFrom(y, RunEnd(y, i, P), P)
    ensures RunsFrom(s, off + i, P) == RunsFrom(y, i, P)
  {
    RunsFromRun(s, off + i, P);
    RunsFromRun(y, i, P);
  }

  /** Helper: `pre + y` holds `y` after `pre`. */
  lemma HoldsAfter(pre: string, y: string)
    ensures HoldsAt(pre + y, |pre|, y)
  {
    assert (pre + y)[|pre|..] == y;
  }

  /** The runs after a position do not depend on the text before it. */
  lemma RunsFromShift(pre: string, y: string, i: nat, P: char -> bool)
    requires i <= |y|
    ensures RunsFrom(pre + y, |pre| + i, P) == RunsFrom(y, i, P)
  {
    HoldsAfter(pre, y);
    RunsFromAt(pre + y, |pre|, y, i, P);
  }

  /** Helper: a character outside `P` starts no run. */
  lemma RunsFromSkip(s: string, i: nat, P: char -> bool)
    requires i < |s| && !P(s[i])
    ensures RunsFrom(s, i, P) == RunsFrom(s, i + 1, P)
  {
    assert NextFrom(s, i, P) == NextFrom(s, i + 1, P);
  }

  /** Helper: a `P`-character starts the next run. */
  lemma RunsFromRun(s: string, i: nat, P: char -> bool)
    requires i < |s| && P(s[i])
    ensures RunsFrom(s, i, P) == [s[i..RunEnd(s, i, P)]] + RunsFrom(s, RunEnd(s, i, P), P)
  {
    assert NextFrom(s, i, P) == i;
  }

  /** Helper: no `P`-character left means no run left. */
  lemma RunsFromEmpty(s: string, i: nat, P: char -> bool)
    requires i <= |s| && NextFrom(s, i, P) == |s|
    ensures RunsFrom(s, i, P) == []
  {
  }

  /** Helper: one step of `RunsFrom`. */
  lemma RunsFromStep(s: string, i: nat, P: char -> bool)
    requires i <= |s|
    ensures var k := NextFrom(s, i, P);
      && (k == |s| ==> RunsFrom(s, i, P) == [])
      && (k < |s| ==> RunsFrom(s, i, P) == [s[k..RunEnd(s, k, P)]] + RunsFrom(s, RunEnd(s, k, P), P))
  {
  }

  /** A text that starts with a whole run has that run first, then the runs of the rest. */
  lemma RunsLeadingRun(x: string, y: string, P: char -> bool)
    requires |x| > 0 && forall j :: 0 <= j < |x| ==> P(x[j])
    requires y == [] || !P(y[0])
    ensures Runs(x + y, P) == [x] + Runs(y, P)
  {
    var s := x + y;
    NextFromIs(s, 0, 0, P);
    RunEndIs(s, 0, |x|, P);
    assert s[0..|x|] == x;
    RunsFromShift(x, y, 0, P);
  }

  /** Characters outside `P` at the front do not change the runs. */
  lemma RunsLeadingGap(g: string, y: string, P: char -> bool)
    requires forall j :: 0 <= j < |g| ==> !P(g[j])
    ensures Runs(g + y, P) == Runs(y, P)
  {
    var s := g + y;
    var k := NextFrom(y, 0, P);
    NextFromIs(s, 0, |g| + k, P);
    NextFromIs(s, |g|, |g| + k, P);
    RunsFromShift(g, y, 0, P);
  }

  /** One `exec` of the global regular expression `/(P+)/g` whose `lastIndex` is `last`:
      the match and the new `lastIndex`. A failed `exec` resets `lastIndex` to 0. */
  function ExecFrom(s: string, last: nat, P: char -> bool): (r: (Option<string>, nat))
    requires last <= |s|
    ensures r.1 <= |s|
  {
    var k := NextFrom(s, last, P);
    if k == |s| then (None, 0)
    else
      var e := RunEnd(s, k, P);
      (Some(s[k..e]), e)
  }

  /** `n` consecutive `exec` calls on one `/(P+)/g` object, starting from `lastIndex = last`. */
  function ExecSeq(s: string, last: nat, P: char -> bool, n: nat): (ms: seq<Option<string>>)
    requires last <= |s|
    ensures |ms| == n
    decreases n
  {
    if n == 0 then []
    else
      var (m, next) := ExecFrom(s, last, P);
      [m] + ExecSeq(s, next, P, n - 1)
  }

  /** `/(P+)/.exec(s)` on a non-global expression: the first run, if any. */
  function FirstRun(s: string, P: char -> bool): Option<string>
  {
    ExecFrom(s, 0, P).0
  }

  /** `/(P+)/.exec(s)` fails exactly when no character is in `P`; otherwise it captures the
      whole run that starts at the first such character. */
  lemma FirstRunCharacterised(s: string, P: char -> bool)
    ensures FirstRun(s, P).None? <==> forall k :: 0 <= k < |s| ==> !P(s[k])
    ensures FirstRun(s, P).Some? ==>
      exists p :: 0 <= p < |s| && P(s[p]) && (forall j :: 0 <= j < p ==> !P(s[j]))
        && FirstRun(s, P).value == s[p..RunEnd(s, p, P)]
  {
    var k := NextFrom(s, 0, P);
    if k < |s| {
      assert P(s[k]);
    }
  }

  /** Result number `t` of a cycle that yields every run in order and then one failure. */
  function Cyclic(R: seq<string>, t: nat): Option<string>
  {
    if t < |R| then Some(R[t])
    else if t == |R| then None
    else Cyclic(R, t - |R| - 1)
  }

  lemma {:induction false} ExecSeqCyclesFrom(s: string, P: char -> bool, last: nat, j: nat, n: nat, k: nat)
    requires last <= |s| && j <= |Runs(s, P)|
    requires RunsFrom(s, last, P) == Runs(s, P)[j..]
    requires k < n
    ensures ExecSeq(s, last, P, n)[k] == Cyclic(Runs(s, P), j + k)
    decreases k
  {
    var R := Runs(s, P);
    var (m, next) := ExecFrom(s, last, P);
    var kk := NextFrom(s, last, P);
    assert ExecSeq(s, last, P, n) == [m] + ExecSeq(s, next, P, n - 1);
    if kk == |s| {
      assert RunsFrom(s, last, P) == [];
      assert j == |R|;
      if k > 0 {
        assert RunsFrom(s, 0, P) == R[0..];
        ExecSeqCyclesFrom(s, P, 0, 0, n - 1, k - 1);
      }
    } else {
      var e := RunEnd(s, kk, P);
      assert RunsFrom(s, last, P) == [s[kk..e]] + RunsFrom(s, e, P);
      assert j < |R| && R[j] == s[kk..e];
      assert RunsFrom(s, e, P) == R[j + 1..];
      if k > 0 {
        ExecSeqCyclesFrom(s, P, e, j + 1, n - 1, k - 1);
      }
    }
  }

  /** Repeated `exec` calls on a global expression return the runs in order, then one
      failure (which resets `lastIndex`), then the runs again from the start. */
  lemma ExecSeqCycles(s: string, P: char -> bool, n: nat, k: nat)
    requires k < n
    ensures ExecSeq(s, 0, P, n)[k] == Cyclic(Runs(s, P), k)
  {
    assert Runs(s, P)[0..] == Runs(s, P);
    ExecSeqCyclesFrom(s, P, 0, 0, n, k);
  }

  /** What must precede the number of a tagged match. */
  datatype Lead = NoLead | SpaceLead

  /** What must follow the number of a tagged match. */
  datatype Tail =
    | PercentTail  // `%`
    | MsTail       // `[ ]*ms`

  predicate LeadAt(s: string, i: nat, lead: Lead)
    requires i <= |s|
  {
    lead == SpaceLead ==> i > 0 && s[i - 1] == ' '
  }

  predicate TailAt(s: string, j: nat, tail: Tail)
    requires j <= |s|
  {
    match tail
    case PercentTail => j < |s| && s[j] == '%'
    case MsTail =>
      var k := RunEnd(s, j, c => c == ' ');
      k + 2 <= |s| && s[k] == 'm' && s[k + 1] == 's'
  }

  /** A match of `Lead([0-9.]+)Tail` has its number starting at `i`. The greedy run cannot
      usefully give back characters: a shorter run is followed by a digit or a dot, which
      neither tail accepts. */
  predicate TaggedAt(s: string, i: nat, lead: Lead, tail: Tail)
    requires i < |s|
  {
    IsNumChar(s[i]) && LeadAt(s, i, lead) && TailAt(s, RunEnd(s, i, IsNumChar), tail)
  }

  /** The captured number of the leftmost match of `Lead([0-9.]+)Tail` at or after `i`. */
  function FirstTaggedFrom(s: string, i: nat, lead: Lead, tail: Tail): Option<string>
    requires i <= |s|
    decreases |s| - i
  {
    if i == |s| then None
    else if TaggedAt(s, i, lead, tail) then Some(s[i..RunEnd(s, i, IsNumChar)])
    else FirstTaggedFrom(s, i + 1, lead, tail)
  }

  function FirstTagged(s: string, lead: Lead, tail: Tail): Option<string>
  {
    FirstTaggedFrom(s, 0, lead, tail)
  }

  /** A stretch `s[i..j]` of number characters preceded as `lead` asks and followed as
      `tail` asks: an occurrence of the pattern, however the engine finds it. */
  predicate Occurrence(s: string, i: nat, j: nat, lead: Lead, tail: Tail)
  {
    i < j <= |s| && (forall k :: i <= k < j ==> IsNumChar(s[k])) && LeadAt(s, i, lead) && TailAt(s, j, tail)
  }

  /** Every occurrence ends where the run of number characters ends. */
  lemma OccurrenceEndsRun(s: string, i: nat, j: nat, lead: Lead, tail: Tail)
    requires Occurrence(s, i, j, lead, tail)
    ensures j == RunEnd(s, i, IsNumChar) && TaggedAt(s, i, lead, tail)
  {
  }

  lemma {:induction false} FirstTaggedFromSound(s: string, i: nat, lead: Lead, tail: Tail)
    requires i <= |s|
    ensures FirstTaggedFrom(s, i, lead, tail).Some? ==>
      exists p :: i <= p < |s| && Occurrence(s, p, RunEnd(s, p, IsNumChar), lead, tail)
        && FirstTaggedFrom(s, i, lead, tail).value == s[p..RunEnd(s, p, IsNumChar)]
        && forall p', q' :: i <= p' < p ==> !Occurrence(s, p', q', lead, tail)
    ensures FirstTaggedFrom(s, i, lead, tail).None? ==>
      forall p, q :: i <= p ==> !Occurrence(s, p, q, lead, tail)
    decreases |s| - i
  {
    if i < |s| {
      FirstTaggedFromSound(s, i + 1, lead, tail);
      forall q | Occurrence(s, i, q, lead, tail) ensures TaggedAt(s, i, lead, tail) {
        OccurrenceEndsRun(s, i, q, lead, tail);
      }
      if TaggedAt(s, i, lead, tail) {
        var e := RunEnd(s, i, IsNumChar);
        assert Occurrence(s, i, e, lead, tail);
      }
    }
  }

  /** The scanner finds the leftmost occurrence of `Lead([0-9.]+)Tail` and captures its
      whole number, and finds nothing exactly when there is no occurrence. */
  lemma FirstTaggedSound(s: string, lead: Lead, tail: Tail)
    ensures FirstTagged(s, lead, tail).Some? ==>
      exists p :: 0 <= p < |s| && Occurrence(s, p, RunEnd(s, p, IsNumChar), lead, tail)
        && FirstTagged(s, lead, tail).value == s[p..RunEnd(s, p, IsNumChar)]
        && forall p': nat, q': nat :: p' < p ==> !Occurrence(s, p', q', lead, tail)
    ensures FirstTagged(s, lead, tail).None? ==>
      forall p, q :: !Occurrence(s, p, q, lead, tail)
  {
    FirstTaggedFromSound(s, 0, lead, tail);
  }

  /** The character that JavaScript's case-insensitive (non-Unicode) matching compares:
      its upper-case form, for the ASCII and basic Cyrillic letters and for the one other
      character that upper-cases onto a letter of the unit patterns (U+1C83, wide es). */
  function Canonical(c: char): char
  {
    if 'a' <= c <= 'z' then (c as int - 32) as char
    else if '\U{0430}' <= c <= '\U{044F}' then (c as int - 32) as char
    else if '\U{0450}' <= c <= '\U{045F}' then (c as int - 80) as char
    else if c == '\U{1C83}' then '\U{0421}'
    else c
  }

  predicate MatchesCIAt(s: string, pat: string, i: nat)
  {
    i + |pat| <= |s| && forall k :: 0 <= k < |pat| ==> Canonical(s[i + k]) == Canonical(pat[k])
  }

  /** `s.search(/pat/i) >= 0` for a pattern of plain letters. */
  predicate ContainsCI(s: string, pat: string)
  {
    exists i: nat | i <= |s| :: MatchesCIAt(s, pat, i)
  }

  /** Last position in `[lo, hi)` holding `c`. */
  function LastIndexIn(s: string, lo: nat, hi: nat, c: char): (r: Option<nat>)
    requires lo <= hi <= |s|
    ensures r.Some? ==> lo <= r.value < hi && s[r.value] == c && forall k :: r.value < k < hi ==> s[k] != c
    ensures r.None? ==> forall k :: lo <= k < hi ==> s[k] != c
    decreases hi - lo
  {
    if lo == hi then None
    else if s[hi - 1] == c then Some(hi - 1)
    else LastIndexIn(s, lo, hi - 1, c)
  }

  /** The capture of `/\[(.*)\]/.exec(t)` searching from position `p`: at the leftmost `[`
      for which one exists, the text up to the last `]` before the next line terminator. */
  function BracketFrom(t: string, p: nat): Option<string>
    requires p <= |t|
    decreases |t| - p
  {
    if p == |t| then None
    else if t[p] == '[' then
      var q := RunEnd(t, p + 1, c => !IsLineTerminator(c));
      match LastIndexIn(t, p + 1, q, ']')
      case Some(j) => Some(t[p + 1..j])
      case None => BracketFrom(t, p + 1)
    else BracketFrom(t, p + 1)
  }

  function BracketContents(t: string): Option<string>
  {
    BracketFrom(t, 0)
  }

  lemma {:induction false} BracketFromNone(t: string, p: nat)
    requires p <= |t|
    requires forall k :: p <= k < |t| ==> t[k] != ']'
    ensures BracketFrom(t, p).None?
    decreases |t| - p
  {
    if p < |t| {
      BracketFromNone(t, p + 1);
    }
  }

  lemma {:induction false} BracketFromSkips(t: string, p: nat, f: nat)
    requires p <= f < |t|
    requires forall k :: p <= k < f ==> t[k] != '['
    ensures BracketFrom(t, p) == BracketFrom(t, f)
    decreases f - p
  {
    if p < f {
      BracketFromSkips(t, p + 1, f);
    }
  }

  /** The text between the first `[` of `t` and the last `]` after it, if there is one. */
  function BracketSpan(t: string): Option<string>
    requires '[' in t
  {
    var f := IndexOfChar(t, '[');
    match LastIndexIn(t, f + 1, |t|, ']')
    case Some(j) => Some(t[f + 1..j])
    case None => None
  }

  /** On a token without line terminators the capture is the text between the first `[`
      and the last `]` after it, and there is none when no `]` follows the first `[`. */
  lemma BracketWithoutTerminators(t: string)
    requires forall k :: 0 <= k < |t| ==> !IsLineTerminator(t[k])
    requires '[' in t
    ensures BracketContents(t) == BracketSpan(t)
  {
    var f := IndexOfChar(t, '[');
    forall k | 0 <= k < f ensures t[k] != '[' {
      assert t[k] == t[..f][k];
    }
    BracketFromSkips(t, 0, f);
    assert RunEnd(t, f + 1, c => !IsLineTerminator(c)) == |t|;
    if LastIndexIn(t, f + 1, |t|, ']').None? {
      BracketFromNone(t, f + 1);
    }
  }
}
