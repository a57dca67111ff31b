/** `eat`: stripping a line and routing it to the handler of the current phase, for the
    three platforms; feeding a whole output and reading the result, as `ping` does. */
module Dispatch {
  import opened Js
  import opened Base
  import Mac
  import Linux
  import Win

  /** What a parser reads besides its four fields: its platform, from its configuration the
      `v6` flag and the text `=<packet size>` (`util.format('=%d', packetSize)`), and the
      IPv4 pattern the Windows header uses. */
  datatype Env = Env(dialect: Dialect, v6: bool, sizeToken: string, isIPv4: string -> bool)

  function HeaderStep(env: Env, s: ParserState, line: string): Step
  {
    match env.dialect
    case LinuxDialect => Linux.HeaderStep(s, line)
    case MacDialect => Mac.HeaderStep(s, line)
    case WinDialect => Win.HeaderStep(s, line, env.isIPv4)
  }

  /** The Linux parser calls the mac body and footer handlers on itself. */
  function BodyStep(env: Env, s: ParserState, line: string): Step
  {
    match env.dialect
    case LinuxDialect => Mac.BodyStep(s, line)
    case MacDialect => Mac.BodyStep(s, line)
    case WinDialect => Win.BodyStep(s, line, env.v6, env.sizeToken)
  }

  function FooterStep(env: Env, s: ParserState, line: string): Step
  {
    match env.dialect
    case LinuxDialect => Mac.FooterStep(s, line)
    case MacDialect => Mac.FooterStep(s, line)
    case WinDialect => Win.FooterStep(s, line)
  }

  /** `eat(line)`: the raw line is recorded, then the stripped line goes to the header
      handler in `INIT` and `HEADER`, to the body handler in `BODY` and to the footer handler
      in `FOOTER`; a line that strips to nothing, or any line in `END`, is only recorded. */
  function EatStep(env: Env, s: ParserState, line: string): Step
  {
    var s1 := s.(lines := s.lines + [line]);
    var l := Strip(line);
    if l == [] then Step(Pass, s1)
    else
      match s.phase
      case Init => HeaderStep(env, s1, l)
      case Header => HeaderStep(env, s1, l)
      case Body => BodyStep(env, s1, l)
      case Footer => FooterStep(env, s1, l)
      case End => Step(Pass, s1)
  }

  /** Feeding lines in order; a handler that throws ends the feeding. */
  function EatAll(env: Env, s: ParserState, lines: seq<string>): Step
    decreases |lines|
  {
    if lines == [] then Step(Pass, s)
    else
      var st := EatStep(env, s, lines[0]);
      if st.outcome.Fail? then st else EatAll(env, st.next, lines[1..])
  }

  /** What `ping` reports for an output: stdout split on `\n`, every line eaten in order by a
      fresh parser, then `getResult`. */
  function Report(env: Env, addr: string, stdout: string): Result<Response>
  {
    var st := EatAll(env, Initial(addr), Split(stdout, '\n'));
    if st.outcome.Fail? then Err(st.outcome.error) else Ok(ResultOf(st.next))
  }

  // ---------------------------------------------------------------- one line

  /** The handlers only ever touch the host fields, the summary fields, the samples and the
      phase: the raw lines, `alive`, `output`, `time` and the recorded `times` are theirs
      to keep. */
  predicate HandlerFrame(s: ParserState, t: ParserState)
  {
    && t.lines == s.lines
    && t.response.inputHost == s.response.inputHost
    && t.response.alive == s.response.alive
    && t.response.output == s.response.output
    && t.response.time == s.response.time
    && t.response.times == s.response.times
  }

  /** The header handlers keep to the frame, take no sample, and move to the body unless they
      throw. */
  lemma HeaderFrame(env: Env, s: ParserState, line: string)
    ensures var st := HeaderStep(env, s, line);
      HandlerFrame(s, st.next) && st.next.times == s.times
      && (st.outcome == Pass ==> st.next.phase == Body)
      && (st.outcome.Fail? ==> st.next.phase == s.phase)
  {
  }

  /** The body handlers never throw, keep to the frame and the response, stay in the body or
      move to the footer, and take at most one sample. */
  lemma BodyFrame(env: Env, s: ParserState, line: string)
    requires s.phase == Body
    ensures var st := BodyStep(env, s, line);
      && st.outcome == Pass && HandlerFrame(s, st.next) && st.next.response == s.response
      && (st.next.phase == Body || st.next.phase == Footer)
      && (st.next.times == s.times || exists x :: st.next.times == s.times + [x])
  {
    match env.dialect
    case LinuxDialect => Mac.BodyTakesLeftmostTime(s, line);
    case MacDialect => Mac.BodyTakesLeftmostTime(s, line);
    case WinDialect => Win.BodyAtMostOneSample(s, line, env.v6, env.sizeToken);
  }

  /** The footer handlers never throw, keep to the frame, take no sample, and stay in the
      footer or end the output. */
  lemma FooterFrame(env: Env, s: ParserState, line: string)
    requires s.phase == Footer
    ensures var st := FooterStep(env, s, line);
      && st.outcome == Pass && HandlerFrame(s, st.next) && st.next.times == s.times
      && (st.next.phase == Footer || st.next.phase == End)
  {
  }

  /** `eat` records the raw line, unstripped, whatever happens to it. */
  lemma EatRecordsLine(env: Env, s: ParserState, line: string)
    ensures EatStep(env, s, line).next.lines == s.lines + [line]
  {
    var s1 := s.(lines := s.lines + [line]);
    if Strip(line) != [] {
      match s.phase
      case Init => HeaderFrame(env, s1, Strip(line));
      case Header => HeaderFrame(env, s1, Strip(line));
      case Body => BodyFrame(env, s1, Strip(line));
      case Footer => FooterFrame(env, s1, Strip(line));
      case End =>
    }
  }

  /** A line that strips to nothing, and any line after the summary, changes nothing but the
      recorded lines. */
  lemma EatBlankOrEndOnlyRecords(env: Env, s: ParserState, line: string)
    requires Strip(line) == [] || s.phase == End
    ensures EatStep(env, s, line) == Step(Pass, s.(lines := s.lines + [line]))
  {
  }

  /** One line moves the phase forward or leaves it: the parser never returns to an earlier
      phase. A header line that does not throw moves to the body, so exactly one non-blank
      line is read as the header. */
  lemma EatPhaseForward(env: Env, s: ParserState, line: string)
    ensures var st := EatStep(env, s, line);
      && st.next.phase.Code() >= s.phase.Code()
      && ((s.phase == Init || s.phase == Header) && Strip(line) != [] && st.outcome == Pass ==> st.next.phase == Body)
  {
    var s1 := s.(lines := s.lines + [line]);
    var l := Strip(line);
    if l != [] {
      match s.phase
      case Init => HeaderFrame(env, s1, l);
      case Header => HeaderFrame(env, s1, l);
      case Body => BodyFrame(env, s1, l);
      case Footer => FooterFrame(env, s1, l);
      case End =>
    }
  }

  /** One line adds at most one sample and never removes or changes the earlier ones; only a
      line read in the body adds one. */
  lemma EatAtMostOneSample(env: Env, s: ParserState, line: string)
    ensures var st := EatStep(env, s, line);
      && (st.next.times == s.times || (s.phase == Body && exists x :: st.next.times == s.times + [x]))
  {
    var s1 := s.(lines := s.lines + [line]);
    var l := Strip(line);
    if l != [] {
      match s.phase
      case Init => HeaderFrame(env, s1, l);
      case Header => HeaderFrame(env, s1, l);
      case Body => BodyFrame(env, s1, l);
      case Footer => FooterFrame(env, s1, l);
      case End =>
    }
  }

  /** `eat` keeps a parser consistent. */
  lemma EatConsistent(env: Env, s: ParserState, line: string)
    requires Consistent(s)
    ensures Consistent(EatStep(env, s, line).next)
  {
    var s1 := s.(lines := s.lines + [line]);
    var l := Strip(line);
    var t := EatStep(env, s, line).next;
    EatPhaseForward(env, s, line);
    EatAtMostOneSample(env, s, line);
    if l != [] {
      match s.phase
      case Init => HeaderFrame(env, s1, l);
      case Header => HeaderFrame(env, s1, l);
      case Body => BodyFrame(env, s1, l);
      case Footer => FooterFrame(env, s1, l);
      case End =>
    }
    assert s.response.times <= t.times;
  }

  // ---------------------------------------------------------------- whole outputs

  /** Feeding lines that all go through records every one of them in order. */
  lemma {:induction false} EatAllRecordsLines(env: Env, s: ParserState, lines: seq<string>)
    requires EatAll(env, s, lines).outcome == Pass
    ensures EatAll(env, s, lines).next.lines == s.lines + lines
    decreases |lines|
  {
    if lines != [] {
      var st := EatStep(env, s, lines[0]);
      EatRecordsLine(env, s, lines[0]);
      EatAllRecordsLines(env, st.next, lines[1..]);
      assert lines == [lines[0]] + lines[1..];
    }
  }

  /** Over a whole output the phase only moves forward, the samples are only extended, and
      the parser stays consistent. */
  lemma {:induction false} EatAllForward(env: Env, s: ParserState, lines: seq<string>)
    requires Consistent(s)
    ensures var t := EatAll(env, s, lines).next;
      t.phase.Code() >= s.phase.Code() && s.times <= t.times && Consistent(t)
    decreases |lines|
  {
    if lines != [] {
      var st := EatStep(env, s, lines[0]);
      EatPhaseForward(env, s, lines[0]);
      EatAtMostOneSample(env, s, lines[0]);
      EatConsistent(env, s, lines[0]);
      if st.outcome == Pass {
        EatAllForward(env, st.next, lines[1..]);
      }
    }
  }

  /** The reported `output` is the captured stdout, character for character. */
  lemma ReportOutputIsStdout(env: Env, addr: string, stdout: string)
    requires Report(env, addr, stdout).Ok?
    ensures Report(env, addr, stdout).value.output == Some(stdout)
  {
    var lines := Split(stdout, '\n');
    EatAllRecordsLines(env, Initial(addr), lines);
    JoinSplit(stdout, '\n');
    var t := EatAll(env, Initial(addr), lines).next;
    InitialConsistent(addr);
    EatAllForward(env, Initial(addr), lines);
    ResultShape(t);
    assert t.lines == Initial(addr).lines + lines == lines;
  }

  /** The report is `alive` exactly when some sample was taken, and then its `time` is the
      first sample and its `times` all samples; a report is consistent with how it began:
      the input host is the address asked for. */
  lemma ReportAlive(env: Env, addr: string, stdout: string)
    requires Report(env, addr, stdout).Ok?
    ensures var t := EatAll(env, Initial(addr), Split(stdout, '\n')).next;
      var r := Report(env, addr, stdout).value;
      && r.inputHost == addr
      && (r.alive <==> |t.times| > 0)
      && (r.alive ==> r.time == Some(t.times[0]) && r.times == t.times)
      && (!r.alive ==> r.time.None? && r.times == [])
  {
    var t := EatAll(env, Initial(addr), Split(stdout, '\n')).next;
    InitialConsistent(addr);
    EatAllForward(env, Initial(addr), Split(stdout, '\n'));
    EatAllInputHost(env, Initial(addr), Split(stdout, '\n'));
    ResultShape(t);
  }

  /** No line changes the input host the parser was built with. */
  lemma {:induction false} EatAllInputHost(env: Env, s: ParserState, lines: seq<string>)
    ensures EatAll(env, s, lines).next.response.inputHost == s.response.inputHost
    decreases |lines|
  {
    if lines != [] {
      var st := EatStep(env, s, lines[0]);
      var s1 := s.(lines := s.lines + [lines[0]]);
      var l := Strip(lines[0]);
      if l != [] {
        match s.phase
        case Init => HeaderFrame(env, s1, l);
        case Header => HeaderFrame(env, s1, l);
        case Body => BodyFrame(env, s1, l);
        case Footer => FooterFrame(env, s1, l);
        case End =>
      }
      if st.outcome == Pass {
        EatAllInputHost(env, st.next, lines[1..]);
      }
    }
  }
}
