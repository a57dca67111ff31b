/** The handlers of `WinParser`, as functions from the parser's state and a stripped line to
    the step they take. */
module Win {
  import opened Js
  import opened Scan
  import opened Base

  predicate HasOpenBracket(t: string)
  {
    '[' in t
  }

  /** A token of a reply line that carries a value: it holds `=` or `<`. */
  predicate IsDataField(t: string)
  {
    '=' in t || '<' in t
  }

  /** A field that mentions milliseconds: `/(ms|мс)/i`. */
  predicate IsTimeField(t: string)
  {
    ContainsCI(t, "ms") || ContainsCI(t, "мс")
  }

  /** `_processHeader`. Without a `[` the host and the address are both the first token the
      IPv4 pattern accepts (`null` when there is none). With a `[` the first token holding one
      anchors the header: the address is the text of its `[…]` (`"NA"` without a closing
      `]`) and the host the token before it (`undefined` when there is none). */
  function HeaderStep(s: ParserState, line: string, isIPv4: string -> bool): Step
  {
    var tokens := Split(line, ' ');
    if '[' !in line then
      var host :=
        match Find(tokens, isIPv4)
        case Some(t) => if t == "" then Null else Str(t)
        case None => Null;
      Step(Pass, s.(response := s.response.(host := host, numericHost := host), phase := Body))
    else
      BracketStep(s, tokens)
  }

  /** The header handler on a line holding `[`: the first token with `[` gives the address
      and the token before it the host. */
  function BracketStep(s: ParserState, tokens: seq<string>): Step
  {
    match Find(tokens, HasOpenBracket)
    case Some(t) =>
      var address := match BracketContents(t) case Some(x) => Str(x) case None => Str("NA");
      var i := IndexOf(tokens, t);
      var host := if i >= 1 then Str(tokens[i - 1]) else Undefined;
      Step(Pass, s.(response := s.response.(numericHost := address, host := host), phase := Body))
    case None => Step(Pass, s.(phase := Body))
  }

  /** The IPv6 handler's repair of split fields: a field whose (first) position in the tokens
      is followed by a token `ms` gets `ms` appended. */
  function AttachMs(tokens: seq<string>, field: string): string
  {
    var next := IndexOf(tokens, field) + 1;
    if 0 <= next < |tokens| && tokens[next] == "ms" then field + "ms" else field
  }

  /** The repaired data fields of a reply line, in order. */
  function IPv6Fields(tokens: seq<string>): seq<string>
  {
    Map(Filter(tokens, IsDataField), f => AttachMs(tokens, f))
  }

  /** `_processIPV6Body`: the first repaired data field that mentions milliseconds contributes
      its first number. */
  function IPv6Step(s: ParserState, line: string): ParserState
  {
    var fields := IPv6Fields(Split(line, ' '));
    if |fields| >= 1 then
      match Find(fields, IsTimeField)
      case Some(t) =>
        (match FirstRun(t, IsNumChar)
         case Some(x) => s.(times := s.times + [Parsed(Some(x))])
         case None => s)
      case None => s
    else s
  }

  /** The test that finds the anchor: the field holds `sizeToken`. */
  function HoldsSize(sizeToken: string): string -> bool
  {
    f => Contains(f, sizeToken)
  }

  /** The first data field holding `sizeToken` (`=<packet size>`). */
  function Anchor(fields: seq<string>, sizeToken: string): Option<string>
  {
    Find(fields, HoldsSize(sizeToken))
  }

  /** What the IPv4 handler reads the time from: the data field after the anchor, or the
      text `"undefined"` when the anchor is the last one. */
  function TimeText(fields: seq<string>, anchor: string): string
  {
    var next := IndexOf(fields, anchor) + 1;
    if 0 <= next < |fields| then fields[next] else "undefined"
  }

  /** `_processIPV4Body`: on a line with three data fields, the field after the first one
      holding `=<packet size>` gives the sample; a sample is taken whenever that anchor exists,
      `NaN` when there is no number after it. */
  function IPv4Step(s: ParserState, line: string, sizeToken: string): ParserState
  {
    var fields := Filter(Split(line, ' '), IsDataField);
    if |fields| >= 3 then
      match Anchor(fields, sizeToken)
      case Some(b) => s.(times := s.times + [Parsed(FirstRun(TimeText(fields, b), IsNumChar))])
      case None => s
    else s
  }

  /** `_processBody`: a line ending in `:` announces the summary; any other line is a reply
      line for the IPv6 or the IPv4 handler, as `config.v6` says. */
  function BodyStep(s: ParserState, line: string, v6: bool, sizeToken: string): Step
  {
    if |line| > 0 && line[|line| - 1] == ':' then Step(Pass, s.(phase := Footer))
    else if v6 then Step(Pass, IPv6Step(s, line))
    else Step(Pass, IPv4Step(s, line, sizeToken))
  }

  /** `_processFooter`: the number before the first `%` is the packet loss; a line mentioning
      `ms` or `мсек` gives min, max and avg from three `exec` calls of `/([0-9.]+)/g` and
      ends the output. */
  function FooterStep(s: ParserState, line: string): Step
  {
    var r :=
      match FirstTagged(line, NoLead, PercentTail)
      case Some(x) => s.response.(packetLoss := Some(Parsed(Some(x))))
      case None => s.response;
    if ContainsCI(line, "ms") || ContainsCI(line, "мсек") then
      var m := ExecSeq(line, 0, IsNumChar, 3);
      Step(Pass, s.(response := r.(min := Parsed(m[0]), max := Parsed(m[1]), avg := Parsed(m[2])), phase := End))
    else Step(Pass, s.(response := r))
  }

  // ---------------------------------------------------------------- header

  /** The header handler never throws and always moves to the body. Without a `[`, host and
      address are equal: the first token the IPv4 pattern accepts, or `null` when no token is
      accepted (or the first one accepted is empty). */
  lemma HeaderNumeric(s: ParserState, line: string, isIPv4: string -> bool)
    requires '[' !in line
    ensures var tokens := Split(line, ' ');
      var i := FindIndex(tokens, isIPv4);
      var host := if i == -1 || tokens[i] == "" then Null else Str(tokens[i]);
      HeaderStep(s, line, isIPv4) == Step(Pass, s.(response := s.response.(host := host, numericHost := host), phase := Body))
  {
    FindThenIndexOf(Split(line, ' '), isIPv4);
  }

  /** With a `[`, the first token holding one gives the address — the text between its
      first `[` and its last `]`, or `"NA"` — and the token before it the host. */
  lemma HeaderBracketed(s: ParserState, line: string, isIPv4: string -> bool)
    requires '[' in line
    requires forall i :: 0 <= i < |line| ==> !IsLineTerminator(line[i])
    ensures var tokens := Split(line, ' ');
      var i := FindIndex(tokens, HasOpenBracket);
      && i >= 0
      && HeaderStep(s, line, isIPv4)
           == Step(Pass, s.(response := s.response.(host := if i == 0 then Undefined else Str(tokens[i - 1]),
                                                    numericHost := BracketText(tokens[i])), phase := Body))
  {
    var tokens := Split(line, ' ');
    SomeTokenHoldsBracket(line);
    FindThenIndexOf(tokens, HasOpenBracket);
    var i := FindIndex(tokens, HasOpenBracket);
    NoTerminatorInTokens(line, i);
    BracketWithoutTerminators(tokens[i]);
    BracketBranch(s, line, isIPv4, tokens, i);
  }

  /** The header `Pinging <name> [<address>] with …` yields exactly that host and address. */
  lemma HeaderReadsNameAndAddress(s: ParserState, pre: seq<string>, name: string, address: string,
                                  post: seq<string>, isIPv4: string -> bool)
    requires forall t <- pre :: ' ' !in t && !HasOpenBracket(t)
    requires forall t <- post :: ' ' !in t
    requires ' ' !in name && ' ' !in address && ']' !in address
    requires var line := Join(pre + [name, "[" + address + "]"] + post, " ");
      forall i :: 0 <= i < |line| ==> !IsLineTerminator(line[i])
    requires !HasOpenBracket(name)
    ensures HeaderStep(s, Join(pre + [name, "[" + address + "]"] + post, " "), isIPv4)
      == Step(Pass, s.(response := s.response.(host := Str(name), numericHost := Str(address)), phase := Body))
  {
    var t := "[" + address + "]";
    assert ' ' !in t by {
      forall j | 0 <= j < |t| ensures t[j] != ' ' {
        if 0 < j <= |address| { assert t[j] == address[j - 1]; }
      }
    }
    var tokens := pre + [name, t] + post;
    var line := Join(tokens, " ");
    SplitJoin(tokens, ' ');
    assert tokens[|pre| + 1] == t;
    JoinHasChar(tokens, |pre| + 1, '[');
    HeaderBracketed(s, line, isIPv4);
    FirstBracketAfterName(pre, name, t, post);
    BracketTextOf(address);
    assert tokens[|pre|] == name;
  }

  /** Helper: the anchoring token of `pre + [name, t] + post`. */
  lemma FirstBracketAfterName(pre: seq<string>, name: string, t: string, post: seq<string>)
    requires forall x <- pre :: !HasOpenBracket(x)
    requires !HasOpenBracket(name) && HasOpenBracket(t)
    ensures FindIndex(pre + [name, t] + post, HasOpenBracket) == |pre| + 1
  {
    var tokens := pre + [name, t] + post;
    assert tokens[|pre| + 1] == t;
    assert forall j :: 0 <= j < |pre| ==> tokens[j] in pre;
    assert tokens[|pre|] == name;
  }

  /** Helper: the address inside `[<address>]`. */
  lemma BracketTextOf(address: string)
    requires ']' !in address
    ensures BracketText("[" + address + "]") == Str(address)
  {
    var t := "[" + address + "]";
    assert IndexOfChar(t, '[') == 0;
    assert LastIndexIn(t, 1, |t|, ']') == Some(|t| - 1);
    assert t[1..|t| - 1] == address;
  }

  /** Helper: a character of a token is a character of the joined line. */
  lemma {:induction false} JoinHasChar(tokens: seq<string>, i: nat, c: char)
    requires i < |tokens| && c in tokens[i]
    ensures c in Join(tokens, " ")
    decreases |tokens|
  {
    if |tokens| == 1 {
      assert Join(tokens, " ") == tokens[0];
    } else {
      var rest := Join(tokens[1..], " ");
      assert Join(tokens, " ") == tokens[0] + " " + rest;
      if i == 0 {
        var k := IndexOfChar(tokens[0], c);
        assert Join(tokens, " ")[k] == c;
      } else {
        JoinHasChar(tokens[1..], i - 1, c);
        var k := IndexOfChar(rest, c);
        assert Join(tokens, " ")[|tokens[0]| + 1 + k] == c;
      }
    }
  }

  /** Helper: a line with a `[` has a token with one. */
  lemma SomeTokenHoldsBracket(line: string)
    requires '[' in line
    ensures FindIndex(Split(line, ' '), HasOpenBracket) >= 0
  {
    JoinSplit(line, ' ');
    TokenHolding(Split(line, ' '), IndexOfChar(line, '['));
  }

  /** Helper: the bracket branch once the anchoring token is known. */
  lemma BracketBranch(s: ParserState, line: string, isIPv4: string -> bool, tokens: seq<string>, i: nat)
    requires '[' in line && Split(line, ' ') == tokens
    requires i < |tokens| && Find(tokens, HasOpenBracket) == Some(tokens[i]) && IndexOf(tokens, tokens[i]) == i
    requires HasOpenBracket(tokens[i])
    requires BracketContents(tokens[i]) == BracketSpan(tokens[i])
    ensures HeaderStep(s, line, isIPv4)
      == Step(Pass, s.(response := s.response.(host := if i == 0 then Undefined else Str(tokens[i - 1]),
                                               numericHost := BracketText(tokens[i])), phase := Body))
  {
    assert HeaderStep(s, line, isIPv4) == BracketStep(s, tokens);
    BracketStepAt(s, tokens, i);
  }

  /** Helper: `BracketStep` once the anchoring token is known. */
  lemma BracketStepAt(s: ParserState, tokens: seq<string>, i: nat)
    requires i < |tokens| && Find(tokens, HasOpenBracket) == Some(tokens[i]) && IndexOf(tokens, tokens[i]) == i
    requires HasOpenBracket(tokens[i])
    requires BracketContents(tokens[i]) == BracketSpan(tokens[i])
    ensures BracketStep(s, tokens)
      == Step(Pass, s.(response := s.response.(host := if i == 0 then Undefined else Str(tokens[i - 1]),
                                               numericHost := BracketText(tokens[i])), phase := Body))
  {
    var t := tokens[i];
    var address := match BracketContents(t) case Some(x) => Str(x) case None => Str("NA");
    assert address == BracketText(t);
  }

  /** The address a bracketed token gives: the text between its first `[` and its last `]`
      after it, or `"NA"` when no `]` follows. */
  function BracketText(t: string): Value
    requires '[' in t
  {
    match BracketSpan(t)
    case Some(x) => Str(x)
    case None => Str("NA")
  }

  /** Helper: some token holds the `[` found in the line. */
  lemma TokenHolding(tokens: seq<string>, k: nat)
    requires k < |Join(tokens, " ")| && Join(tokens, " ")[k] == '['
    ensures exists t <- tokens :: HasOpenBracket(t)
    decreases |tokens|
  {
    if |tokens| == 0 {
    } else if |tokens| == 1 {
      assert Join(tokens, " ") == tokens[0];
      assert tokens[0][k] == '[';
      assert HasOpenBracket(tokens[0]);
    } else {
      var rest := Join(tokens[1..], " ");
      assert Join(tokens, " ") == tokens[0] + " " + rest;
      if k < |tokens[0]| {
        assert tokens[0][k] == '[';
        assert HasOpenBracket(tokens[0]);
      } else {
        assert k > |tokens[0]|;
        assert rest[k - |tokens[0]| - 1] == '[';
        TokenHolding(tokens[1..], k - |tokens[0]| - 1);
      }
    }
  }

  /** Helper: the tokens of a line without line terminators have none either. */
  lemma NoTerminatorInTokens(line: string, i: nat)
    requires forall k :: 0 <= k < |line| ==> !IsLineTerminator(line[k])
    requires i < |Split(line, ' ')|
    ensures forall k :: 0 <= k < |Split(line, ' ')[i]| ==> !IsLineTerminator(Split(line, ' ')[i][k])
  {
    var tokens := Split(line, ' ');
    JoinSplit(line, ' ');
    assert Join(tokens, " ") == line;
    forall k | 0 <= k < |tokens[i]| ensures !IsLineTerminator(tokens[i][k]) {
      var c := tokens[i][k];
      JoinHasChar(tokens, i, c);
      var m := IndexOfChar(line, c);
    }
  }

  // ---------------------------------------------------------------- body

  /** A line ending in `:` ends the body and takes no sample. Any other line leaves the phase
      and the response alone and takes at most one sample. */
  lemma BodyAtMostOneSample(s: ParserState, line: string, v6: bool, sizeToken: string)
    ensures var st := BodyStep(s, line, v6, sizeToken);
      && st.outcome == Pass && st.next.response == s.response && st.next.lines == s.lines
      && (|line| > 0 && line[|line| - 1] == ':' ==> st.next == s.(phase := Footer))
      && (!(|line| > 0 && line[|line| - 1] == ':') ==>
            st.next.phase == s.phase
            && (st.next.times == s.times || exists x :: st.next.times == s.times + [x]))
  {
  }

  /** The IPv4 handler reads the time from the data field right after the first one holding
      `=<packet size>`, whatever the tokens around them: on a reply line
      `… <bytes field> <time field> <ttl field>` the sample is the time field's first number. */
  lemma IPv4ReplyTakesFieldAfterBytes(s: ParserState, pre: seq<string>, bytes: string, time: string,
                                      ttl: string, sizeToken: string)
    requires forall t <- pre :: ' ' !in t && !IsDataField(t)
    requires ' ' !in bytes && ' ' !in time && ' ' !in ttl
    requires IsDataField(bytes) && IsDataField(time) && IsDataField(ttl)
    requires Contains(bytes, sizeToken)
    ensures IPv4Step(s, Join(pre + [bytes, time, ttl], " "), sizeToken)
      == s.(times := s.times + [Parsed(FirstRun(time, IsNumChar))])
  {
    var tokens := pre + [bytes, time, ttl];
    SplitJoin(tokens, ' ');
    ReplyFields(pre, bytes, time, ttl);
    ReplyAnchor(bytes, time, ttl, sizeToken);
  }

  /** Helper: the data fields of such a reply line are its last three tokens. */
  lemma ReplyFields(pre: seq<string>, bytes: string, time: string, ttl: string)
    requires forall t <- pre :: !IsDataField(t)
    requires IsDataField(bytes) && IsDataField(time) && IsDataField(ttl)
    ensures Filter(pre + [bytes, time, ttl], IsDataField) == [bytes, time, ttl]
  {
    FilterAppend(pre, [bytes, time, ttl], IsDataField);
    FilterNoneOf(pre, IsDataField);
    FilterAllOf([bytes, time, ttl], IsDataField);
  }

  /** Helper: the first of three fields anchors the sample, and the second gives it. */
  lemma ReplyAnchor(bytes: string, time: string, ttl: string, sizeToken: string)
    requires Contains(bytes, sizeToken)
    ensures Anchor([bytes, time, ttl], sizeToken) == Some(bytes)
    ensures TimeText([bytes, time, ttl], bytes) == time
  {
  }

  /** When the anchoring field is the last data field, a sample is still taken: `NaN`, read
      from the text `"undefined"`, which has no digits. */
  lemma IPv4AnchorLastTakesNaN(s: ParserState, line: string, sizeToken: string)
    requires var fields := Filter(Split(line, ' '), IsDataField);
      |fields| >= 3 && Anchor(fields, sizeToken).Some?
      && IndexOf(fields, Anchor(fields, sizeToken).value) == |fields| - 1
    ensures IPv4Step(s, line, sizeToken) == s.(times := s.times + [Parsed(None)])
  {
    var fields := Filter(Split(line, ' '), IsDataField);
    assert TimeText(fields, Anchor(fields, sizeToken).value) == "undefined";
    UndefinedHasNoNumber();
  }

  /** Helper: the text "undefined" holds no `[0-9.]`. */
  lemma UndefinedHasNoNumber()
    ensures FirstRun("undefined", IsNumChar) == None
  {
    var u := "undefined";
    forall j | 0 <= j < |u| ensures !IsNumChar(u[j]) {
    }
    NextFromIs(u, 0, |u|, IsNumChar);
  }

  /** The IPv6 handler repairs a time split by a space: on a reply line whose only data field
      is `<key><<number>` followed by a token `ms`, the sample is that number. */
  lemma IPv6SplitTimeRepaired(s: ParserState, pre: seq<string>, key: string, number: string)
    requires forall t <- pre :: ' ' !in t && !IsDataField(t)
    requires ' ' !in key && '=' !in key && '<' !in key
    requires forall j :: 0 <= j < |key| ==> !IsNumChar(key[j])
    requires |number| > 0 && forall j :: 0 <= j < |number| ==> IsNumChar(number[j])
    ensures IPv6Step(s, Join(pre + [key + "<" + number, "ms"], " "))
      == s.(times := s.times + [Parsed(Some(number))])
  {
    var f := key + "<" + number;
    assert ' ' !in f by {
      forall j | 0 <= j < |f| ensures f[j] != ' ' {
        if j < |key| { assert f[j] == key[j]; } else if j > |key| { assert f[j] == number[j - |key| - 1]; }
      }
    }
    assert IsDataField(f) by { assert f[|key|] == '<'; }
    var tokens := pre + [f, "ms"];
    SplitJoin(tokens, ' ');
    SplitTimeFields(pre, f);
    var g := f + "ms";
    assert MatchesCIAt(g, "ms", |f|);
    assert IsTimeField(g);
    FirstNumberAfterKey(key, number);
  }

  /** Helper: the repaired data fields of `pre + [f, "ms"]`. */
  lemma SplitTimeFields(pre: seq<string>, f: string)
    requires forall t <- pre :: !IsDataField(t)
    requires IsDataField(f)
    ensures IPv6Fields(pre + [f, "ms"]) == [f + "ms"]
  {
    var tokens := pre + [f, "ms"];
    FilterAppend(pre, [f, "ms"], IsDataField);
    FilterNoneOf(pre, IsDataField);
    assert Filter([f, "ms"], IsDataField) == [f] by {
      assert [f, "ms"][1..] == ["ms"];
      assert ["ms"][1..] == [];
    }
    assert IndexOf(tokens, f) == |pre| by {
      var m := IndexOf(tokens, f);
      assert tokens[|pre|] == f;
    }
  }

  /** Helper: the first number of `<key><<number>ms`. */
  lemma FirstNumberAfterKey(key: string, number: string)
    requires forall j :: 0 <= j < |key| ==> !IsNumChar(key[j])
    requires |number| > 0 && forall j :: 0 <= j < |number| ==> IsNumChar(number[j])
    ensures FirstRun(key + "<" + number + "ms", IsNumChar) == Some(number)
  {
    var g := key + "<" + number + "ms";
    var k := |key| + 1;
    var e := k + |number|;
    forall j | 0 <= j < k ensures !IsNumChar(g[j]) {
      if j < |key| { assert g[j] == key[j]; }
    }
    forall j | k <= j < e ensures IsNumChar(g[j]) {
      assert g[j] == number[j - k];
    }
    assert g[k] == number[0];
    assert g[e] == 'm';
    NextFromIs(g, 0, k, IsNumChar);
    RunEndIs(g, k, e, IsNumChar);
    assert g[k..e] == number;
  }

  // ---------------------------------------------------------------- footer

  /** The footer handler never touches the samples. It sets the packet loss from the leftmost
      `<number>%`, and on a line mentioning `ms` or `мсек` it sets min, max and avg — in that
      order — from successive `exec` results and ends the output; otherwise those fields and
      the phase stay. */
  lemma FooterSummary(s: ParserState, line: string)
    ensures var st := FooterStep(s, line);
      var R := Runs(line, IsNumChar);
      var r := st.next.response;
      && st.outcome == Pass && st.next.times == s.times && st.next.lines == s.lines
      && r.(packetLoss := s.response.packetLoss, min := s.response.min, avg := s.response.avg,
            max := s.response.max) == s.response
      && (FirstTagged(line, NoLead, PercentTail).Some? ==>
            r.packetLoss == Some(Parsed(FirstTagged(line, NoLead, PercentTail))))
      && (FirstTagged(line, NoLead, PercentTail).None? ==> r.packetLoss == s.response.packetLoss)
      && (ContainsCI(line, "ms") || ContainsCI(line, "мсек") ==>
            && st.next.phase == End
            && r.min == Parsed(Cyclic(R, 0)) && r.max == Parsed(Cyclic(R, 1)) && r.avg == Parsed(Cyclic(R, 2)))
      && (!(ContainsCI(line, "ms") || ContainsCI(line, "мсек")) ==>
            st.next.phase == s.phase && r.min == s.response.min && r.avg == s.response.avg && r.max == s.response.max)
  {
    if ContainsCI(line, "ms") || ContainsCI(line, "мсек") {
      ExecSeqCycles(line, IsNumChar, 3, 0);
      ExecSeqCycles(line, IsNumChar, 3, 1);
      ExecSeqCycles(line, IsNumChar, 3, 2);
    }
  }

  /** A Russian summary line in `мсек` is recognised: `мсек` mentions `мс`, and the check
      ignores case, so `МСЕК` is recognised as well. */
  lemma RussianUnitRecognised(line: string, i: nat)
    requires i + 4 <= |line| && line[i..i + 4] == "МСЕК"
    ensures ContainsCI(line, "мсек")
  {
    assert MatchesCIAt(line, "мсек", i) by {
      forall k | 0 <= k < 4 ensures Canonical(line[i + k]) == Canonical("мсек"[k]) {
        assert line[i + k] == line[i..i + 4][k];
      }
    }
  }

  // ---------------------------------------------------------------- whole-line rules

  /** Every repaired data field is the data field itself, with `ms` appended exactly when the
      token right after the field's first occurrence in the line is `ms`. */
  lemma IPv6FieldRepaired(tokens: seq<string>, k: nat)
    requires k < |Filter(tokens, IsDataField)|
    ensures var f := Filter(tokens, IsDataField)[k];
      var p := IndexOf(tokens, f);
      && IsDataField(f) && 0 <= p < |tokens| && tokens[p] == f && f !in tokens[..p]
      && |IPv6Fields(tokens)| == |Filter(tokens, IsDataField)|
      && IPv6Fields(tokens)[k] == (if p + 1 < |tokens| && tokens[p + 1] == "ms" then f + "ms" else f)
  {
    FilterElement(tokens, IsDataField, k);
  }

  /** The IPv6 handler on any line: the sample comes from the first repaired data field that
      mentions milliseconds, and is that field's first number; when no field mentions
      milliseconds, or the first one that does holds no digit or `.`, no sample is taken. */
  lemma IPv6StepTakesFirstTimeField(s: ParserState, line: string)
    ensures var fields := IPv6Fields(Split(line, ' '));
      var i := FindIndex(fields, IsTimeField);
      && (i >= 0 && FirstRun(fields[i], IsNumChar).Some? ==>
            IPv6Step(s, line) == s.(times := s.times + [Parsed(FirstRun(fields[i], IsNumChar))]))
      && (i == -1 || FirstRun(fields[i], IsNumChar).None? ==> IPv6Step(s, line) == s)
  {
    var fields := IPv6Fields(Split(line, ' '));
    FindThenIndexOf(fields, IsTimeField);
  }

  /** The IPv4 handler on any line. With fewer than three data fields, or none holding
      `sizeToken`, no sample is taken. Otherwise the first field holding it anchors the
      sample: the first number of the next data field, or `NaN` when the anchor is the last
      data field. */
  lemma IPv4StepTakesFieldAfterAnchor(s: ParserState, line: string, sizeToken: string)
    ensures var fields := Filter(Split(line, ' '), IsDataField);
      var a := FindIndex(fields, HoldsSize(sizeToken));
      && (|fields| < 3 || a == -1 ==> IPv4Step(s, line, sizeToken) == s)
      && (|fields| >= 3 && 0 <= a < |fields| - 1 ==>
            IPv4Step(s, line, sizeToken) == s.(times := s.times + [Parsed(FirstRun(fields[a + 1], IsNumChar))]))
      && (|fields| >= 3 && a == |fields| - 1 ==>
            IPv4Step(s, line, sizeToken) == s.(times := s.times + [Parsed(None)]))
  {
    var fields := Filter(Split(line, ' '), IsDataField);
    FindThenIndexOf(fields, HoldsSize(sizeToken));
    UndefinedHasNoNumber();
  }
}
