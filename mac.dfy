/** The handlers of `MacParser`, as functions from the parser's state and a stripped line to
    the step they take. The Linux parser reuses the body and footer handlers. */
module Mac {
  import opened Js
  import opened Scan
  import opened Base

  /** `_processHeader`: the second token is the host, the third without its first character
      and last two characters the address. A line with fewer than three tokens throws, after
      the host has been assigned (`undefined` when there is no second token). */
  function HeaderStep(s: ParserState, line: string): Step
  {
    var tokens := Split(line, ' ');
    if |tokens| < 2 then Step(Fail(TypeError), s.(response := s.response.(host := Undefined)))
    else
      var r := s.response.(host := Str(tokens[1]));
      if |tokens| < 3 then Step(Fail(TypeError), s.(response := r))
      else Step(Pass, s.(response := r.(numericHost := Str(Slice(tokens[2], 1, -2))), phase := Body))
  }

  /** `_processBody`: a line with at least three `=` contributes the number before its first
      `ms`; a line containing `---` ends the body. */
  function BodyStep(s: ParserState, line: string): Step
  {
    var s1 :=
      if Count(line, '=') >= 3 then
        match FirstTagged(line, NoLead, MsTail)
        case Some(x) => s.(times := s.times + [Parsed(Some(x))])
        case None => s
      else s;
    if Contains(line, "---") then Step(Pass, s1.(phase := Footer)) else Step(Pass, s1)
  }

  /** `_processFooter`: the number before the first ` …%` is the packet loss; a line with at
      least three `/` gives min, avg, max and stddev from four `exec` calls of `/([0-9.]+)/g`
      and ends the output. */
  function FooterStep(s: ParserState, line: string): Step
  {
    var r :=
      match FirstTagged(line, SpaceLead, PercentTail)
      case Some(x) => s.response.(packetLoss := Some(Parsed(Some(x))))
      case None => s.response;
    if Count(line, '/') >= 3 then
      var m := ExecSeq(line, 0, IsNumChar, 4);
      Step(Pass, s.(response := r.(min := Parsed(m[0]), avg := Parsed(m[1]), max := Parsed(m[2]),
                                   stddev := Some(Parsed(m[3]))), phase := End))
    else Step(Pass, s.(response := r))
  }

  /** A header line `PING <host> (<address>): …` yields exactly that host and address. */
  lemma HeaderReadsHostAndAddress(s: ParserState, host: string, address: string, rest: seq<string>)
    requires ' ' !in host && ' ' !in address
    requires forall t <- rest :: ' ' !in t
    ensures HeaderStep(s, Join(["PING", host, "(" + address + "):"] + rest, " "))
      == Step(Pass, s.(response := s.response.(host := Str(host), numericHost := Str(address)), phase := Body))
  {
    var third := "(" + address + "):";
    assert ' ' !in third by {
      forall i | 0 <= i < |third| ensures third[i] != ' ' {
        if 0 < i <= |address| { assert third[i] == address[i - 1]; }
      }
    }
    var tokens := ["PING", host, third] + rest;
    SplitJoin(tokens, ' ');
    assert Slice(third, 1, -2) == address;
  }

  /** The header handler succeeds exactly on lines of at least three tokens and then moves to
      the body; it never touches the lines or the samples. */
  lemma HeaderOutcome(s: ParserState, line: string)
    ensures var st := HeaderStep(s, line);
      && (st.outcome == Pass <==> |Split(line, ' ')| >= 3)
      && (st.outcome == Pass ==> st.next.phase == Body)
      && (st.outcome.Fail? ==> st.next.phase == s.phase && st.next.response.numericHost == s.response.numericHost)
      && st.next.lines == s.lines && st.next.times == s.times
  {
  }

  /** The body handler never writes the response and takes at most one sample: the leftmost
      `[0-9.]+[ ]*ms` number, and only on a line with three `=`. `---` ends the body whether or
      not a sample was taken. */
  lemma BodyTakesLeftmostTime(s: ParserState, line: string)
    ensures var st := BodyStep(s, line);
      && st.outcome == Pass && st.next.response == s.response && st.next.lines == s.lines
      && st.next.phase == (if Contains(line, "---") then Footer else s.phase)
      && (Count(line, '=') < 3 || (forall p, q :: !Occurrence(line, p, q, NoLead, MsTail)) ==>
            st.next.times == s.times)
      && (Count(line, '=') >= 3 && (exists p, q :: Occurrence(line, p, q, NoLead, MsTail)) ==>
            exists p: nat :: p < |line|
              && Occurrence(line, p, RunEnd(line, p, IsNumChar), NoLead, MsTail)
              && (forall p': nat, q': nat :: p' < p ==> !Occurrence(line, p', q', NoLead, MsTail))
              && st.next.times == s.times + [Parsed(Some(line[p..RunEnd(line, p, IsNumChar)]))])
  {
    FirstTaggedSound(line, NoLead, MsTail);
  }

  /** The footer handler never touches the samples. It sets the packet loss from the leftmost
      ` <number>%`, and on a line with three `/` it sets min, avg, max and stddev from
      successive `exec` results — the runs of `[0-9.]` in order, then one miss (`NaN`), then
      the runs again — and ends the output; otherwise those fields and the phase stay. */
  lemma FooterSummary(s: ParserState, line: string)
    ensures var st := FooterStep(s, line);
      var R := Runs(line, IsNumChar);
      var r := st.next.response;
      && st.outcome == Pass && st.next.times == s.times && st.next.lines == s.lines
      && r.(packetLoss := s.response.packetLoss, min := s.response.min, avg := s.response.avg,
            max := s.response.max, stddev := s.response.stddev) == s.response
      && (FirstTagged(line, SpaceLead, PercentTail).Some? ==>
            r.packetLoss == Some(Parsed(FirstTagged(line, SpaceLead, PercentTail))))
      && (FirstTagged(line, SpaceLead, PercentTail).None? ==> r.packetLoss == s.response.packetLoss)
      && (Count(line, '/') >= 3 ==>
            && st.next.phase == End
            && r.min == Parsed(Cyclic(R, 0)) && r.avg == Parsed(Cyclic(R, 1))
            && r.max == Parsed(Cyclic(R, 2)) && r.stddev == Some(Parsed(Cyclic(R, 3))))
      && (Count(line, '/') < 3 ==>
            && st.next.phase == s.phase
            && r.min == s.response.min && r.avg == s.response.avg
            && r.max == s.response.max && r.stddev == s.response.stddev)
  {
    if Count(line, '/') >= 3 {
      ExecSeqCycles(line, IsNumChar, 4, 0);
      ExecSeqCycles(line, IsNumChar, 4, 1);
      ExecSeqCycles(line, IsNumChar, 4, 2);
      ExecSeqCycles(line, IsNumChar, 4, 3);
    }
  }

  /** On a summary line with at least four numbers, min, avg, max and stddev are the first
      four numbers in that order. */
  lemma FooterFourNumbers(s: ParserState, line: string)
    requires Count(line, '/') >= 3 && |Runs(line, IsNumChar)| >= 4
    ensures var R := Runs(line, IsNumChar);
      var r := FooterStep(s, line).next.response;
      r.min == Parsed(Some(R[0])) && r.avg == Parsed(Some(R[1])) && r.max == Parsed(Some(R[2]))
      && r.stddev == Some(Parsed(Some(R[3])))
  {
    FooterSummary(s, line);
  }
}
