/** The parser object itself: its four fields, updated in place by `eat` and `getResult`,
    with each handler proved against the step functions of `Base`, `Mac`, `Linux`, `Win` and
    `Dispatch`. The platform (the subclass) and what the handlers read from the configuration
    are fixed when the parser is built. */
module ParserCore {
  import opened Js
  import opened Scan
  import opened Base
  import Config
  import Mac
  import Linux
  import Win
  import Dispatch

  class Parser {
    const dialect: Dialect
    /** `this._pingConfig.v6`, as the Windows body handler tests it. */
    const v6: bool
    /** `util.format('=%d', this._pingConfig.packetSize)`. */
    const sizeToken: string
    /** `IPV4REGEX.test`. */
    const isIPv4: string -> bool

    var phase: Phase
    var lines: seq<string>
    var times: seq<Reading>
    var response: Response

    /** What the handlers read besides the four fields. */
    function Env(): Dispatch.Env
    {
      Dispatch.Env(dialect, v6, sizeToken, isIPv4)
    }

    /** The four fields, as a value. */
    function State(): ParserState
      reads this
    {
      ParserState(phase, lines, times, response)
    }

    /** The invariant every parser keeps between calls. */
    predicate Valid()
      reads this
    {
      Consistent(State())
    }

    /** `new XParser(addr, config)`: a missing configuration is read as `{}`. */
    constructor(dialect: Dialect, addr: string, config: Config.ConfigObject?, isIPv4: string -> bool)
      requires config != null ==> NumberLike(config.Get(Config.PacketSize))
      ensures State() == Initial(addr) && Valid()
      ensures var c := if config == null then map[] else config.entries;
        && this.dialect == dialect && this.isIPv4 == isIPv4
        && v6 == Truthy(Config.Lookup(c, Config.V6))
        && sizeToken == "=" + FormatD(Config.Lookup(c, Config.PacketSize))
    {
      var c := if config == null then map[] else config.entries;
      this.dialect := dialect;
      this.v6 := Truthy(Config.Lookup(c, Config.V6));
      this.sizeToken := "=" + FormatD(Config.Lookup(c, Config.PacketSize));
      this.isIPv4 := isIPv4;
      phase := Init;
      response := InitialResponse(addr);
      times := [];
      lines := [];
      new;
      InitialConsistent(addr);
    }

    /** `_changeState(state)`: a number that names no state throws and changes nothing;
        otherwise the phase becomes exactly that state and nothing else changes. */
    method ChangeState(code: int) returns (outcome: Outcome)
      modifies this
      ensures PhaseOf(code).None? ==> outcome == Fail(UnknownState) && State() == old(State())
      ensures PhaseOf(code).Some? ==> outcome == Pass && State() == old(State()).(phase := PhaseOf(code).value)
    {
      var p := PhaseOf(code);
      if p.None? {
        return Fail(UnknownState);
      }
      phase := p.value;
      outcome := Pass;
    }

    // ------------------------------------------------------------ mac

    method MacHeader(line: string) returns (outcome: Outcome)
      modifies this
      ensures Step(outcome, State()) == Mac.HeaderStep(old(State()), line)
    {
      var tokens := Split(line, ' ');
      response := response.(host := if |tokens| >= 2 then Str(tokens[1]) else Undefined);
      if |tokens| < 3 {
        return Fail(TypeError);
      }
      response := response.(numericHost := Str(Slice(tokens[2], 1, -2)));
      outcome := ChangeState(Body.Code());
    }

    method MacBody(line: string) returns (outcome: Outcome)
      modifies this
      ensures Step(outcome, State()) == Mac.BodyStep(old(State()), line)
    {
      if Count(line, '=') >= 3 {
        var m := FirstTagged(line, NoLead, MsTail);
        if m.Some? {
          times := times + [Parsed(Some(m.value))];
        }
      }
      outcome := Pass;
      if Contains(line, "---") {
        outcome := ChangeState(Footer.Code());
      }
    }

    method MacFooter(line: string) returns (outcome: Outcome)
      modifies this
      ensures Step(outcome, State()) == Mac.FooterStep(old(State()), line)
    {
      var loss := FirstTagged(line, SpaceLead, PercentTail);
      if loss.Some? {
        response := response.(packetLoss := Some(Parsed(Some(loss.value))));
      }
      outcome := Pass;
      if Count(line, '/') >= 3 {
        // one global regular expression object: each `exec` starts at the last one's end
        var (m1, i1) := ExecFrom(line, 0, IsNumChar);
        var (m2, i2) := ExecFrom(line, i1, IsNumChar);
        var (m3, i3) := ExecFrom(line, i2, IsNumChar);
        var (m4, i4) := ExecFrom(line, i3, IsNumChar);
        assert ExecSeq(line, 0, IsNumChar, 4) == [m1, m2, m3, m4] by {
          assert ExecSeq(line, i3, IsNumChar, 1) == [m4];
          assert ExecSeq(line, i2, IsNumChar, 2) == [m3, m4];
          assert ExecSeq(line, i1, IsNumChar, 3) == [m2, m3, m4];
        }
        response := response.(min := Parsed(m1), avg := Parsed(m2), max := Parsed(m3), stddev := Some(Parsed(m4)));
        outcome := ChangeState(End.Code());
        outcome := ChangeState(End.Code());
      }
    }

    // ------------------------------------------------------------ linux

    method LinuxHeader(line: string) returns (outcome: Outcome)
      modifies this
      ensures Step(outcome, State()) == Linux.HeaderStep(old(State()), line)
    {
      var tokens := Split(line, ' ');
      if |tokens| < 2 {
        return Fail(TypeError);
      }
      if '(' !in tokens[1] {
        response := response.(host := Str(tokens[1]));
        if |tokens| < 3 {
          return Fail(TypeError);
        }
        response := response.(numericHost := Str(Slice(tokens[2], 1, -1)));
      } else {
        var found := Runs(Join(Slice(tokens, 1, -3), ""), Linux.IsAddressChar);
        response := response.(host := if |found| == 0 then Null else Str(found[0]));
        response := response.(numericHost := if |found| >= 2 then Str(found[|found| - 1]) else Undefined);
      }
      outcome := ChangeState(Body.Code());
    }

    // ------------------------------------------------------------ windows

    method WinHeader(line: string) returns (outcome: Outcome)
      modifies this
      ensures Step(outcome, State()) == Win.HeaderStep(old(State()), line, isIPv4)
    {
      var tokens := Split(line, ' ');
      if '[' !in line {
        var t := Find(tokens, isIPv4);
        response := response.(host := if t.None? || t.value == "" then Null else Str(t.value));
        response := response.(numericHost := response.host);
      } else {
        var t := Find(tokens, Win.HasOpenBracket);
        if t.Some? {
          var i := IndexOf(tokens, t.value);
          var bracket := BracketContents(t.value);
          response := response.(numericHost := if bracket.Some? then Str(bracket.value) else Str("NA"));
          response := response.(host := if i >= 1 then Str(tokens[i - 1]) else Undefined);
        }
      }
      outcome := ChangeState(Body.Code());
    }

    method WinIPv6Body(line: string)
      modifies this
      ensures State() == Win.IPv6Step(old(State()), line)
    {
      var fields := Win.IPv6Fields(Split(line, ' '));
      if |fields| >= 1 {
        var t := Find(fields, Win.IsTimeField);
        if t.Some? {
          var m := FirstRun(t.value, IsNumChar);
          if m.Some? {
            times := times + [Parsed(Some(m.value))];
          }
        }
      }
    }

    method WinIPv4Body(line: string)
      modifies this
      ensures State() == Win.IPv4Step(old(State()), line, sizeToken)
    {
      var fields := Filter(Split(line, ' '), Win.IsDataField);
      if |fields| >= 3 {
        var anchor := Win.Anchor(fields, sizeToken);
        if anchor.Some? {
          // the field after the anchor; past the end, `exec` reads the text "undefined"
          var text := Win.TimeText(fields, anchor.value);
          times := times + [Parsed(FirstRun(text, IsNumChar))];
        }
      }
    }

    method WinBody(line: string) returns (outcome: Outcome)
      modifies this
      ensures Step(outcome, State()) == Win.BodyStep(old(State()), line, v6, sizeToken)
    {
      if |line| > 0 && line[|line| - 1] == ':' {
        outcome := ChangeState(Footer.Code());
        return;
      }
      if v6 {
        WinIPv6Body(line);
      } else {
        WinIPv4Body(line);
      }
      outcome := Pass;
    }

    method WinFooter(line: string) returns (outcome: Outcome)
      modifies this
      ensures Step(outcome, State()) == Win.FooterStep(old(State()), line)
    {
      var loss := FirstTagged(line, NoLead, PercentTail);
      if loss.Some? {
        response := response.(packetLoss := Some(Parsed(Some(loss.value))));
      }
      outcome := Pass;
      if ContainsCI(line, "ms") || ContainsCI(line, "мсек") {
        var (m1, i1) := ExecFrom(line, 0, IsNumChar);
        var (m2, i2) := ExecFrom(line, i1, IsNumChar);
        var (m3, i3) := ExecFrom(line, i2, IsNumChar);
        assert ExecSeq(line, 0, IsNumChar, 3) == [m1, m2, m3] by {
          assert ExecSeq(line, i2, IsNumChar, 1) == [m3];
          assert ExecSeq(line, i1, IsNumChar, 2) == [m2, m3];
        }
        response := response.(min := Parsed(m1), max := Parsed(m2), avg := Parsed(m3));
        outcome := ChangeState(End.Code());
      }
    }

    // ------------------------------------------------------------ dispatch

    method ProcessHeader(line: string) returns (outcome: Outcome)
      modifies this
      ensures Step(outcome, State()) == Dispatch.HeaderStep(Env(), old(State()), line)
    {
      match dialect
      case LinuxDialect => outcome := LinuxHeader(line);
      case MacDialect => outcome := MacHeader(line);
      case WinDialect => outcome := WinHeader(line);
    }

    method ProcessBody(line: string) returns (outcome: Outcome)
      modifies this
      ensures Step(outcome, State()) == Dispatch.BodyStep(Env(), old(State()), line)
    {
      match dialect
      case LinuxDialect => outcome := MacBody(line);
      case MacDialect => outcome := MacBody(line);
      case WinDialect => outcome := WinBody(line);
    }

    method ProcessFooter(line: string) returns (outcome: Outcome)
      modifies this
      ensures Step(outcome, State()) == Dispatch.FooterStep(Env(), old(State()), line)
    {
      match dialect
      case LinuxDialect => outcome := MacFooter(line);
      case MacDialect => outcome := MacFooter(line);
      case WinDialect => outcome := WinFooter(line);
    }

    /** `eat(line)`: records the raw line, strips it and hands it to the handler of the
        current phase; the parser stays valid. */
    method Eat(line: string) returns (outcome: Outcome)
      requires Valid()
      modifies this
      ensures Step(outcome, State()) == Dispatch.EatStep(Env(), old(State()), line)
      ensures Valid()
    {
      Dispatch.EatConsistent(Env(), State(), line);
      lines := lines + [line];
      var l := Strip(line);
      if l == [] {
        outcome := Pass;
      } else if phase == Init || phase == Header {
        outcome := ProcessHeader(l);
      } else if phase == Body {
        outcome := ProcessBody(l);
      } else if phase == Footer {
        outcome := ProcessFooter(l);
      } else {
        outcome := Pass;
      }
    }

    /** `lines.forEach(parser.eat, parser)`: every line in order, until a handler throws. */
    method EatLines(input: seq<string>) returns (outcome: Outcome)
      requires Valid()
      modifies this
      ensures Step(outcome, State()) == Dispatch.EatAll(Env(), old(State()), input)
      ensures Valid()
    {
      var i := 0;
      outcome := Pass;
      while i < |input|
        invariant 0 <= i <= |input| && Valid() && outcome == Pass
        invariant Dispatch.EatAll(Env(), old(State()), input) == Dispatch.EatAll(Env(), State(), input[i..])
      {
        ghost var before := State();
        assert input[i..][0] == input[i] && input[i..][1..] == input[i + 1..];
        outcome := Eat(input[i]);
        assert Dispatch.EatAll(Env(), before, input[i..])
          == if outcome.Fail? then Step(outcome, State()) else Dispatch.EatAll(Env(), State(), input[i + 1..]);
        if outcome.Fail? {
          return;
        }
        i := i + 1;
      }
    }

    /** `getResult()`: the response as `ResultOf` describes it; the parser records the first
        sample and the samples in its own response and is otherwise left as it was. */
    method GetResult() returns (ret: Response)
      requires Valid()
      modifies this
      ensures ret == ResultOf(old(State()))
      ensures State() == AfterResult(old(State())) && Valid()
    {
      AfterResultConsistent(State());
      ret := response;
      ret := ret.(output := Some(Join(lines, "\n")));
      ret := ret.(alive := |times| > 0);
      if ret.alive {
        response := response.(time := Some(times[0]));
        ret := ret.(time := response.time);
        response := response.(times := times);
        ret := ret.(times := response.times);
      }
      if ret.stddev.None? && ret.alive {
        ret := ret.(stddev := Some(RoundedStdDev(times, ret.avg)));
      }
      ghost var unrounded := ret;
      for k := 0 to |FixedKeys|
        invariant ret == FixKeys(unrounded, FixedKeys[..k])
      {
        assert FixedKeys[..k + 1][..k] == FixedKeys[..k];
        ret := FixField(ret, FixedKeys[k]);
      }
      assert FixedKeys[..|FixedKeys|] == FixedKeys;
    }
  }
}
