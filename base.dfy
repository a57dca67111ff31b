/** The state every parser shares (`BaseParser`): the phase, the raw lines, the samples and
    the response record, with line stripping and the result computation of `getResult`. */
module Base {
  import opened Js

  /** The `STATES` enum. */
  datatype Phase = Init | Header | Body | Footer | End
  {
    /** The enum member's number. */
    function Code(): (c: int)
      ensures 0 <= c <= 4
    {
      match this
      case Init => 0
      case Header => 1
      case Body => 2
      case Footer => 3
      case End => 4
    }
  }

  /** The enum member with number `code`, if there is one. */
  function PhaseOf(code: int): (r: Option<Phase>)
    ensures r.Some? <==> 0 <= code <= 4
    ensures r.Some? ==> r.value.Code() == code
  {
    if code == 0 then Some(Init)
    else if code == 1 then Some(Header)
    else if code == 2 then Some(Body)
    else if code == 3 then Some(Footer)
    else if code == 4 then Some(End)
    else None
  }

  /** Which platform's output the parser reads. */
  datatype Dialect = LinuxDialect | MacDialect | WinDialect

  /** A number the parser stores, kept symbolic: floating point is not modelled. */
  datatype Reading =
    | Literal(n: int)                                      // an integer constant of the source
    | Parsed(text: Option<string>)                         // `parseFloat` of a captured text; None is `parseFloat(undefined)`, NaN
    | RoundedStdDev(samples: seq<Reading>, mean: Reading)  // `Math.round(Math.sqrt(variance) * 1000) / 1000`
    | Fixed3(number: Reading)                              // `number.toFixed(3)`: a string, no longer a number
  {
    /** `typeof v === "number"`. */
    predicate IsNumber()
    {
      !Fixed3?
    }
  }

  /** The `PingResponse` record. `host` and `numericHost` hold `null`, `undefined` or a string;
      an absent `numeric_host` reads as `undefined`. */
  datatype Response = Response(
    inputHost: string,
    host: Value,
    numericHost: Value,
    alive: bool,
    output: Option<string>,
    time: Option<Reading>,
    times: seq<Reading>,
    min: Reading,
    max: Reading,
    avg: Reading,
    stddev: Option<Reading>,
    packetLoss: Option<Reading>)

  /** The four fields of a parser, as a value. */
  datatype ParserState = ParserState(phase: Phase, lines: seq<string>, times: seq<Reading>, response: Response)

  /** A handler's completion together with the state it leaves behind (also when it throws). */
  datatype Step = Step(outcome: Outcome, next: ParserState)

  /** The response a parser starts from. */
  function InitialResponse(addr: string): (r: Response)
    ensures r.inputHost == addr && r.host == Null && r.numericHost == Undefined
    ensures !r.alive && r.output.None? && r.time.None? && r.times == []
    ensures r.min == r.max == r.avg == Literal(0)
    ensures r.stddev.None? && r.packetLoss.None?
  {
    Response(addr, Null, Undefined, false, None, None, [], Literal(0), Literal(0), Literal(0), None, None)
  }

  function Initial(addr: string): (s: ParserState)
    ensures s.phase == Init && s.lines == [] && s.times == []
    ensures s.response == InitialResponse(addr)
  {
    ParserState(Init, [], [], InitialResponse(addr))
  }

  /** What `getResult` can find in a parser: its own `alive` and `output` are never written,
      a recorded `time` is the first sample, the recorded `times` are a prefix of the samples,
      and samples exist only once the header is behind. */
  predicate Consistent(s: ParserState)
  {
    && !s.response.alive
    && s.response.output.None?
    && (s.response.time.Some? <==> |s.response.times| > 0)
    && (s.response.time.Some? ==> |s.times| > 0 && s.response.time.value == s.times[0])
    && s.response.times <= s.times
    && (|s.times| > 0 ==> s.phase.Code() >= 2)
  }

  lemma InitialConsistent(addr: string)
    ensures Consistent(Initial(addr))
  {
  }

  // ---------------------------------------------------------------- stripping

  /** `s` with its trailing spaces removed. */
  function TrimSpaces(s: string): (r: string)
    ensures |r| <= |s| && r == s[..|r|]
    ensures forall i :: |r| <= i < |s| ==> s[i] == ' '
    ensures |r| == 0 || s[|r| - 1] != ' '
  {
    if |s| > 0 && s[|s| - 1] == ' ' then TrimSpaces(s[..|s| - 1]) else s
  }

  /** `s` without its last character when that is `c`. */
  function DropLast(s: string, c: char): (r: string)
    ensures r == s || (|s| > 0 && s[|s| - 1] == c && r == s[..|s| - 1])
  {
    if |s| > 0 && s[|s| - 1] == c then s[..|s| - 1] else s
  }

  /** `line.replace(/[ ]*\r?\n?$/g, "")`: one `\n`, then one `\r`, then spaces come off the end. */
  function Strip(line: string): (r: string)
    ensures |r| <= |line| && r == line[..|r|]
  {
    TrimSpaces(DropLast(DropLast(line, '\n'), '\r'))
  }

  /** `u` is nothing, `\r`, `\n` or `\r\n`. */
  predicate IsBreak(u: string)
  {
    u == "" || u == "\r" || u == "\n" || u == "\r\n"
  }

  /** `t` is spaces up to `j` and then nothing, `\r`, `\n` or `\r\n`. */
  predicate SuffixShapeAt(t: string, j: nat)
  {
    j <= |t| && (forall k :: 0 <= k < j ==> t[k] == ' ') && IsBreak(t[j..])
  }

  /** `t` matches `[ ]*\r?\n?` as a whole. */
  predicate IsStripSuffix(t: string)
  {
    exists j: nat | j <= |t| :: SuffixShapeAt(t, j)
  }

  /** Stripping removes exactly the longest suffix of the form spaces, optional `\r`,
      optional `\n`: what it removes has that form, and no longer suffix has. */
  lemma StripRemovesLongestSuffix(line: string)
    ensures var r := Strip(line);
      |r| <= |line| && r == line[..|r|] && IsStripSuffix(line[|r|..])
      && forall k :: 0 <= k < |r| ==> !IsStripSuffix(line[k..])
  {
    var b := DropLast(DropLast(line, '\n'), '\r');
    var r := TrimSpaces(b);
    StripRemovesShape(line);
    forall k | 0 <= k < |r| ensures !IsStripSuffix(line[k..]) {
      if IsStripSuffix(line[k..]) {
        var u := line[k..];
        var j: nat :| j <= |u| && SuffixShapeAt(u, j);
        forall i | k <= i < k + j ensures line[i] == ' ' {
          assert line[i] == u[i - k];
        }
        assert line[k + j..] == u[j..];
        StripKeepsNoShape(line, k, j);
      }
    }
  }

  /** What stripping removes has the form `[ ]*\r?\n?`. */
  lemma StripRemovesShape(line: string)
    ensures IsStripSuffix(line[|Strip(line)|..])
  {
    var a := DropLast(line, '\n');
    var b := DropLast(a, '\r');
    var r := TrimSpaces(b);
    var t := line[|r|..];
    var j := |b| - |r|;
    forall i | 0 <= i < j ensures t[i] == ' ' {
      assert t[i] == b[|r| + i];
    }
    assert t[j..] == line[|b|..];
    BreakRemoved(line);
    assert SuffixShapeAt(t, j);
  }

  /** Helper: dropping one `\n` and then one `\r` removes a line break of one of the four shapes. */
  lemma BreakRemoved(line: string)
    ensures IsBreak(line[|DropLast(DropLast(line, '\n'), '\r')|..])
  {
    var a := DropLast(line, '\n');
    var b := DropLast(a, '\r');
    var n := |line|;
    if a == line {
      if b == a {
        assert line[|b|..] == "";
      } else {
        assert line[|b|..] == "\r";
      }
    } else if b == a {
      assert line[|b|..] == "\n";
    } else {
      assert line[n - 2] == '\r';
      assert line[|b|..] == "\r\n";
    }
  }

  /** Helper: when `line` ends in spaces from `k` to `k + j` and then a line break,
      the line-break parts that stripping removes reach back to `k + j` at least. */
  lemma StripKeepsNoShape(line: string, k: nat, j: nat)
    requires k + j <= |line|
    requires forall i :: k <= i < k + j ==> line[i] == ' '
    requires IsBreak(line[k + j..])
    ensures |DropLast(DropLast(line, '\n'), '\r')| <= k + j
  {
    var n := |line|;
    var t := line[k + j..];
    if t == "\r" {
      assert line[n - 1] == t[0];
    } else if t == "\n" {
      assert line[n - 1] == t[0];
    } else if t == "\r\n" {
      assert line[n - 1] == t[1] && line[n - 2] == t[0];
      assert DropLast(line, '\n')[n - 2] == '\r';
    }
  }

  // ---------------------------------------------------------------- getResult

  /** The fields `getResult` rounds to three decimals, in the order it visits them. */
  datatype Key = MinKey | AvgKey | MaxKey | StdDevKey | PacketLossKey

  const FixedKeys: seq<Key> := [MinKey, AvgKey, MaxKey, StdDevKey, PacketLossKey]

  /** `typeof v === "number" ? v.toFixed(3) : v`. */
  function Fix(v: Reading): (f: Reading)
    ensures !f.IsNumber()
    ensures v.IsNumber() ==> f.number == v
    ensures !v.IsNumber() ==> f == v
  {
    if v.IsNumber() then Fixed3(v) else v
  }

  /** The same for a field that may hold `null`, which is not a number. */
  function FixOpt(v: Option<Reading>): (f: Option<Reading>)
    ensures f.Some? <==> v.Some?
    ensures f.Some? ==> f.value == Fix(v.value)
  {
    match v
    case None => None
    case Some(x) => Some(Fix(x))
  }

  /** One turn of the rounding loop. */
  function FixField(r: Response, key: Key): Response
  {
    match key
    case MinKey => r.(min := Fix(r.min))
    case AvgKey => r.(avg := Fix(r.avg))
    case MaxKey => r.(max := Fix(r.max))
    case StdDevKey => r.(stddev := FixOpt(r.stddev))
    case PacketLossKey => r.(packetLoss := FixOpt(r.packetLoss))
  }

  /** The rounding loop run over `keys`, in order. */
  function FixKeys(r: Response, keys: seq<Key>): Response
  {
    if keys == [] then r else FixField(FixKeys(r, keys[..|keys| - 1]), keys[|keys| - 1])
  }

  /** The rounded record: the five summary fields that hold numbers become three-decimal text. */
  function Formatted(r: Response): Response
  {
    FixKeys(r, FixedKeys)
  }

  /** Rounding changes the five summary fields and nothing else, and rounds each one
      exactly when it holds a number. */
  lemma FormattedFields(r: Response)
    ensures Formatted(r) == r.(min := Fix(r.min), avg := Fix(r.avg), max := Fix(r.max),
                               stddev := FixOpt(r.stddev), packetLoss := FixOpt(r.packetLoss))
  {
    var ks := FixedKeys;
    assert ks[..4] == [MinKey, AvgKey, MaxKey, StdDevKey];
    assert ks[..4][..3] == [MinKey, AvgKey, MaxKey];
    assert ks[..4][..3][..2] == [MinKey, AvgKey];
    assert ks[..4][..3][..2][..1] == [MinKey];
    assert [MinKey][..0] == [];
    var r1 := FixField(r, MinKey);
    assert FixKeys(r, [MinKey]) == r1;
    var r2 := FixField(r1, AvgKey);
    assert FixKeys(r, [MinKey, AvgKey]) == r2;
    var r3 := FixField(r2, MaxKey);
    assert FixKeys(r, [MinKey, AvgKey, MaxKey]) == r3;
    var r4 := FixField(r3, StdDevKey);
    assert FixKeys(r, [MinKey, AvgKey, MaxKey, StdDevKey]) == r4;
  }

  /** The record `getResult` returns. */
  function ResultOf(s: ParserState): Response
  {
    var alive := |s.times| > 0;
    var ret := s.response.(output := Some(Join(s.lines, "\n")), alive := alive);
    var ret := if alive then ret.(time := Some(s.times[0]), times := s.times) else ret;
    var ret := if ret.stddev.None? && alive then ret.(stddev := Some(RoundedStdDev(s.times, ret.avg))) else ret;
    Formatted(ret)
  }

  /** The parser after `getResult`, which records the first sample and the samples in its
      own response when there are any. */
  function AfterResult(s: ParserState): (t: ParserState)
    ensures t.phase == s.phase && t.lines == s.lines && t.times == s.times
  {
    if |s.times| > 0 then s.(response := s.response.(time := Some(s.times[0]), times := s.times)) else s
  }

  /** The result: the raw lines joined, `alive` exactly when a sample was taken, then the
      first sample and every sample in arrival order; otherwise what the parser held.
      The inputs and host fields come through untouched. */
  lemma ResultShape(s: ParserState)
    requires Consistent(s)
    ensures var r := ResultOf(s);
      && r.output == Some(Join(s.lines, "\n"))
      && (r.alive <==> |s.times| > 0)
      && (r.alive ==> r.time == Some(s.times[0]) && r.times == s.times)
      && (!r.alive ==> r.time.None? && r.times == [])
      && r.inputHost == s.response.inputHost
      && r.host == s.response.host && r.numericHost == s.response.numericHost
  {
    var alive := |s.times| > 0;
    var r0 := s.response.(output := Some(Join(s.lines, "\n")), alive := alive);
    var r1 := if alive then r0.(time := Some(s.times[0]), times := s.times) else r0;
    var r2 := if r1.stddev.None? && alive then r1.(stddev := Some(RoundedStdDev(s.times, r1.avg))) else r1;
    FormattedFields(r2);
    assert ResultOf(s) == Formatted(r2);
  }

  /** `stddev` is computed only when there are samples and the footer gave none, and then it
      is taken around the response's `avg`, not around the mean of the samples; the other
      summary fields are the footer's values, rounded. */
  lemma ResultSummary(s: ParserState)
    ensures var r := ResultOf(s);
      && (|s.times| > 0 && s.response.stddev.None? ==>
            r.stddev == Some(Fixed3(RoundedStdDev(s.times, s.response.avg))))
      && (|s.times| == 0 || s.response.stddev.Some? ==> r.stddev == FixOpt(s.response.stddev))
      && r.min == Fix(s.response.min) && r.avg == Fix(s.response.avg) && r.max == Fix(s.response.max)
      && r.packetLoss == FixOpt(s.response.packetLoss)
  {
    var alive := |s.times| > 0;
    var r0 := s.response.(output := Some(Join(s.lines, "\n")), alive := alive);
    var r1 := if alive then r0.(time := Some(s.times[0]), times := s.times) else r0;
    var r2 := if r1.stddev.None? && alive then r1.(stddev := Some(RoundedStdDev(s.times, r1.avg))) else r1;
    FormattedFields(r2);
    assert ResultOf(s) == Formatted(r2);
  }

  /** Calling `getResult` a second time gives the same record and leaves the parser as the
      first call left it. */
  lemma ResultRepeatable(s: ParserState)
    ensures ResultOf(AfterResult(s)) == ResultOf(s)
    ensures AfterResult(AfterResult(s)) == AfterResult(s)
  {
  }

  /** `getResult` keeps a parser consistent. */
  lemma AfterResultConsistent(s: ParserState)
    requires Consistent(s)
    ensures Consistent(AfterResult(s))
  {
  }
}
