/** The header handler of `LinuxParser`; its body and footer handlers are the mac ones. */
module Linux {
  import opened Js
  import opened Scan
  import opened Base

  /** The characters of `/([^\s()]+)/g`. */
  predicate IsAddressChar(c: char)
  {
    !IsJsSpace(c) && c != '(' && c != ')'
  }

  /** `_processHeader`. When the second token has no `(` it is the host and the third token
      without its first and last characters is the address. Otherwise the tokens between the
      first and the last three are run together and cut into address-character runs: the
      first run is the host (`null` when there is none) and, after `shift`, `pop` takes the
      last run as the address (`undefined` unless there were two runs or more). A line with
      one token throws before anything is assigned; one with two tokens and no `(` throws
      after the host is assigned. */
  function HeaderStep(s: ParserState, line: string): Step
  {
    var tokens := Split(line, ' ');
    if |tokens| < 2 then Step(Fail(TypeError), s)
    else if '(' !in tokens[1] then
      var r := s.response.(host := Str(tokens[1]));
      if |tokens| < 3 then Step(Fail(TypeError), s.(response := r))
      else Step(Pass, s.(response := r.(numericHost := Str(Slice(tokens[2], 1, -1))), phase := Body))
    else
      var found := Runs(Join(Slice(tokens, 1, -3), ""), IsAddressChar);
      var host := if |found| == 0 then Null else Str(found[0]);
      var address := if |found| >= 2 then Str(found[|found| - 1]) else Undefined;
      Step(Pass, s.(response := s.response.(host := host, numericHost := address), phase := Body))
  }

  /** The header handler fails exactly on a line of one token, or of two tokens the second
      of which has no `(`; when it succeeds it moves to the body. It never touches the lines
      or the samples. */
  lemma HeaderOutcome(s: ParserState, line: string)
    ensures var st := HeaderStep(s, line);
      var tokens := Split(line, ' ');
      && (st.outcome == Pass <==> |tokens| >= 3 || (|tokens| == 2 && '(' in tokens[1]))
      && (st.outcome == Pass ==> st.next.phase == Body)
      && (st.outcome.Fail? ==> st.next.phase == s.phase && st.next.response.numericHost == s.response.numericHost)
      && st.next.lines == s.lines && st.next.times == s.times
  {
  }

  /** In the `(` branch the host and address are whole address-character runs of the middle
      tokens, which run together give back exactly their address characters: the host is
      the first run (`null` exactly when there is no address character) and the address the
      last run (`undefined` exactly when there are fewer than two). */
  lemma HeaderParenthesisedRuns(s: ParserState, line: string)
    requires |Split(line, ' ')| >= 2 && '(' in Split(line, ' ')[1]
    ensures var mid := Join(Slice(Split(line, ' '), 1, -3), "");
      var R := Runs(mid, IsAddressChar);
      var r := HeaderStep(s, line).next.response;
      && Flatten(R) == Filter(mid, IsAddressChar)
      && (forall w <- R :: w != [] && forall c <- w :: IsAddressChar(c))
      && (r.host == Null <==> forall i :: 0 <= i < |mid| ==> !IsAddressChar(mid[i]))
      && (r.host.Str? ==> r.host.s == R[0])
      && (r.numericHost.Str? <==> |R| >= 2)
      && (r.numericHost.Str? ==> r.numericHost.s == R[|R| - 1])
      && (!r.numericHost.Str? ==> r.numericHost == Undefined)
  {
    var mid := Join(Slice(Split(line, ' '), 1, -3), "");
    var R := Runs(mid, IsAddressChar);
    RunsCharacterised(mid, IsAddressChar);
    if |R| == 0 {
      FilterEmpty(mid, IsAddressChar);
    } else {
      FirstRunIsPrefix(mid, IsAddressChar);
    }
  }

  /** Helper: nothing is kept exactly when no character qualifies. */
  lemma FilterEmpty(s: string, P: char -> bool)
    requires Filter(s, P) == []
    ensures forall i :: 0 <= i < |s| ==> !P(s[i])
  {
    forall i | 0 <= i < |s| ensures !P(s[i]) {
      assert s == s[..i] + s[i..];
      FilterAppend(s[..i], s[i..], P);
      assert s[i..][0] == s[i];
    }
  }

  /** Helper: the first run is the text up to its end with the leading gap removed;
      in particular it occurs in `s`. */
  lemma FirstRunIsPrefix(s: string, P: char -> bool)
    requires |Runs(s, P)| > 0
    ensures var k := NextFrom(s, 0, P); Runs(s, P)[0] == s[k..RunEnd(s, k, P)]
  {
  }

  /** The IPv4 header `PING <host> (<address>) …` yields exactly that host and address. */
  lemma HeaderReadsIPv4Shape(s: ParserState, host: string, address: string, rest: seq<string>)
    requires ' ' !in host && '(' !in host && ' ' !in address
    requires forall t <- rest :: ' ' !in t
    ensures HeaderStep(s, Join(["PING", host, "(" + address + ")"] + rest, " "))
      == Step(Pass, s.(response := s.response.(host := Str(host), numericHost := Str(address)), phase := Body))
  {
    var third := "(" + address + ")";
    assert ' ' !in third by {
      forall i | 0 <= i < |third| ensures third[i] != ' ' {
        if 0 < i <= |address| { assert third[i] == address[i - 1]; }
      }
    }
    SplitJoin(["PING", host, third] + rest, ' ');
    assert Slice(third, 1, -1) == address;
  }

  /** Helper: the address-character runs of `<name>(<reverse name>(<address>))`. */
  lemma IPv6HeaderRuns(name: string, rname: string, address: string)
    requires |name| > 0 && |rname| > 0 && |address| > 0
    requires forall i :: 0 <= i < |name| ==> IsAddressChar(name[i])
    requires forall i :: 0 <= i < |rname| ==> IsAddressChar(rname[i])
    requires forall i :: 0 <= i < |address| ==> IsAddressChar(address[i])
    ensures Runs(name + "(" + rname + "(" + address + "))", IsAddressChar) == [name, rname, address]
  {
    var P := IsAddressChar;
    assert name + "(" + rname + "(" + address + "))" == name + ("(" + (rname + ("(" + (address + "))"))));
    RunsLeadingGap("))", [], P);
    assert "))" + [] == "))";
    RunsLeadingRun(address, "))", P);
    RunsLeadingGap("(", address + "))", P);
    RunsLeadingRun(rname, "(" + (address + "))"), P);
    RunsLeadingGap("(", rname + ("(" + (address + "))")), P);
    RunsLeadingRun(name, "(" + (rname + ("(" + (address + "))"))), P);
  }

  /** The IPv6 header `PING <name>(<reverse name> (<address>)) t1 t2 t3` yields the name as
      host and the address. */
  lemma HeaderReadsIPv6Shape(s: ParserState, name: string, rname: string, address: string,
                             t1: string, t2: string, t3: string)
    requires |name| > 0 && |rname| > 0 && |address| > 0
    requires forall i :: 0 <= i < |name| ==> IsAddressChar(name[i])
    requires forall i :: 0 <= i < |rname| ==> IsAddressChar(rname[i])
    requires forall i :: 0 <= i < |address| ==> IsAddressChar(address[i])
    requires ' ' !in t1 && ' ' !in t2 && ' ' !in t3
    ensures HeaderStep(s, Join(["PING", name + "(" + rname, "(" + address + "))", t1, t2, t3], " "))
      == Step(Pass, s.(response := s.response.(host := Str(name), numericHost := Str(address)), phase := Body))
  {
    var second := name + "(" + rname;
    var third := "(" + address + "))";
    IPv6HeaderTokens(name, rname, address);
    var tokens := ["PING", second, third, t1, t2, t3];
    SplitJoin(tokens, ' ');
    IPv6MiddleRuns(name, rname, address, t1, t2, t3);
    ParenthesisedBranch(s, Join(tokens, " "), tokens, [name, rname, address]);
  }

  /** Helper: the middle tokens of an IPv6 header, run together, cut into the name, the
      reverse name and the address. */
  lemma IPv6MiddleRuns(name: string, rname: string, address: string, t1: string, t2: string, t3: string)
    requires |name| > 0 && |rname| > 0 && |address| > 0
    requires forall i :: 0 <= i < |name| ==> IsAddressChar(name[i])
    requires forall i :: 0 <= i < |rname| ==> IsAddressChar(rname[i])
    requires forall i :: 0 <= i < |address| ==> IsAddressChar(address[i])
    ensures '(' in name + "(" + rname
    ensures Runs(Join(Slice(["PING", name + "(" + rname, "(" + address + "))", t1, t2, t3], 1, -3), ""), IsAddressChar)
      == [name, rname, address]
  {
    var second := name + "(" + rname;
    var third := "(" + address + "))";
    assert second[|name|] == '(';
    MiddleTokensJoined("PING", second, third, t1, t2, t3);
    assert second + third == name + "(" + rname + "(" + address + "))";
    IPv6HeaderRuns(name, rname, address);
  }

  /** Helper: the two middle tokens of an IPv6 header hold no space. */
  lemma IPv6HeaderTokens(name: string, rname: string, address: string)
    requires forall i :: 0 <= i < |name| ==> IsAddressChar(name[i])
    requires forall i :: 0 <= i < |rname| ==> IsAddressChar(rname[i])
    requires forall i :: 0 <= i < |address| ==> IsAddressChar(address[i])
    ensures ' ' !in name + "(" + rname && ' ' !in "(" + address + "))"
  {
    var second := name + "(" + rname;
    var third := "(" + address + "))";
    forall i | 0 <= i < |second| ensures second[i] != ' ' {
      if i < |name| { assert second[i] == name[i]; }
      else if i > |name| { assert second[i] == rname[i - |name| - 1]; }
    }
    forall i | 0 <= i < |third| ensures third[i] != ' ' {
      if 0 < i <= |address| { assert third[i] == address[i - 1]; }
    }
  }

  /** Helper: of six tokens, the ones between the first and the last three, run together. */
  lemma MiddleTokensJoined(t0: string, a: string, b: string, t1: string, t2: string, t3: string)
    ensures Join(Slice([t0, a, b, t1, t2, t3], 1, -3), "") == a + b
  {
    assert Slice([t0, a, b, t1, t2, t3], 1, -3) == [a, b];
    var two := [a, b];
    assert two[1..] == [b];
    assert Join(two[1..], "") == b;
    assert Join(two, "") == a + "" + b;
    assert a + "" == a;
  }

  /** Helper: the `(` branch once the tokens and the runs are known. */
  lemma ParenthesisedBranch(s: ParserState, line: string, tokens: seq<string>, R: seq<string>)
    requires Split(line, ' ') == tokens && |tokens| >= 2 && '(' in tokens[1]
    requires Runs(Join(Slice(tokens, 1, -3), ""), IsAddressChar) == R && |R| >= 2
    ensures HeaderStep(s, line)
      == Step(Pass, s.(response := s.response.(host := Str(R[0]), numericHost := Str(R[|R| - 1])), phase := Body))
  {
  }
}
