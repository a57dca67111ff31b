# ping: output parsers and argument builders

This project models the core of the `ping` package for Node.js. That core has two halves:

- **Argument builders.** `LinuxBuilder` and `WinBuilder` turn a `PingConfig` into the command
  line of the system `ping`. Before building, each writes its defaults into the caller's
  configuration object.
- **Output parsers.** `MacParser`, `LinuxParser` and `WinParser` read the system `ping`'s
  output line by line and build a `PingResponse`. A parser has a phase (`INIT`, `HEADER`,
  `BODY`, `FOOTER`, `END`). It records every raw line, strips trailing spaces and line breaks,
  and passes the stripped line to the handler of its phase. `getResult` then assembles the
  response.

`BuilderFactory` sorts platform names into families and picks the builder and the executable.
`ParserFactory` picks the parser.

Module layout:

| module | contents |
|---|---|
| `Js` | The JavaScript values the configuration holds. Also `split`, `join`, `indexOf`, `find`, `filter`, `slice` and `%d` formatting. |
| `Scan` | The regular expressions the handlers use, written as scanners. Each comes with lemmas that characterise what it finds. |
| `Base` | `BaseParser`: the state, stripping, and `getResult`. |
| `Mac`, `Linux`, `Win` | Each platform's handlers, as pure step functions. |
| `Dispatch` | `eat` over a whole output. |
| `ParserCore` | The parser as a class. Its fields are updated in place, and every method is proved equal to the step functions. |
| `Config` | The configuration object and the builders' default-filling loop. |
| `Argv` | Conditional option rows. |
| `LinuxBuilder`, `WinBuilder` | The two builders. |
| `BuilderFactory`, `ParserFactory` | The two factories. |

Numbers the parser reads are kept symbolic. `Parsed(Some(text))` is `parseFloat(text)`, and
`Parsed(None)` is `NaN`. `RoundedStdDev` is the computed deviation, and `Fixed3` is the text
that `toFixed(3)` produces.

## Model

| member | source | states |
|---|---|---|
| Base.PhaseOf | src/parser/base.ts:23-29 | A code names a state exactly when it is 0 to 4, and the state it names has that code. |
| ParserCore.Parser.ChangeState | src/parser/base.ts:82-90 | A code that names no state fails with "Unknown state" and changes nothing. Any other code sets exactly the phase. |
| Base.InitialResponse | src/parser/base.ts:50-62 | A new response has the input host, a `null` host, an `undefined` address, not alive, no output or time, no samples, zero min/max/avg, and no stddev or packet loss. |
| Base.Initial | src/parser/base.ts:45-75 | A new parser is in `INIT`, with no lines and no samples, and holds the initial response. |
| Base.InitialConsistent | src/parser/base.ts:45-75 | A new parser satisfies the consistency invariant. |
| ParserCore.Parser.constructor | src/parser/base.ts:45-75 | A parser starts in the initial state. A missing configuration reads as `{}`. `v6` and the `=<packetSize>` token are read from the configuration. |
| Base.Strip | src/parser/base.ts:122 | The stripped line is a prefix of the line. |
| Base.StripRemovesLongestSuffix | src/parser/base.ts:122 | Stripping removes a suffix of the form `[ ]*\r?\n?`, and no longer suffix has that form. |
| Dispatch.EatRecordsLine | src/parser/base.ts:119 | `eat` records the raw, unstripped line, whatever else happens. |
| Dispatch.EatBlankOrEndOnlyRecords | src/parser/base.ts:124-133 | A line that strips to nothing, or any line in `END`, only records the line. |
| Dispatch.EatPhaseForward | src/parser/base.ts:115-139 | The phase never moves back. A header line that does not throw moves the parser to `BODY`. |
| Dispatch.EatAtMostOneSample | src/parser/base.ts:115-139 | One line adds at most one sample, only in `BODY`, and never changes earlier samples. |
| Dispatch.EatConsistent | src/parser/base.ts:115-139 | `eat` keeps the consistency invariant. |
| Dispatch.HeaderFrame | src/parser/base.ts:126-127 | Header handlers never touch the lines, `alive`, `output`, `time` or the samples. They move to `BODY` unless they throw. |
| Dispatch.BodyFrame | src/parser/base.ts:128-129 | Body handlers never throw and leave the response alone. They stay in `BODY` or move to `FOOTER`, and add at most one sample. |
| Dispatch.FooterFrame | src/parser/base.ts:130-131 | Footer handlers never throw and take no sample. They stay in `FOOTER` or move to `END`. |
| ParserCore.Parser.Eat | src/parser/base.ts:115-139 | The new state is the `eat` step function applied to the old one. The parser stays consistent. |
| ParserCore.Parser.EatLines | lib/ping.ts:92-95 | Eating a list of lines in order equals the step function over the whole list. It stops at the first throw. |
| Dispatch.EatAllRecordsLines | lib/ping.ts:92-95 | When no handler throws, the parser records exactly the lines it was given, in order. |
| Dispatch.EatAllForward | lib/ping.ts:92-95 | Over a whole output, the phase only moves forward and samples are only appended. The parser stays consistent. |
| Dispatch.EatAllInputHost | lib/ping.ts:92-95 | No line changes the input host. |
| Dispatch.ReportOutputIsStdout | lib/ping.ts:92-98 | The reported `output` is the captured stdout, character for character. |
| Dispatch.ReportAlive | lib/ping.ts:92-98 | The report is alive exactly when a sample was taken. Its `time` is then the first sample and `times` are all the samples. Its input host is the address that was asked for. |
| Base.ResultShape | src/parser/base.ts:145-160 | `output` is the lines joined by `\n`. `alive` holds exactly when there are samples, and then `time` is the first sample and `times` are all samples. The host fields pass through unchanged. |
| Base.ResultSummary | src/parser/base.ts:162-183 | `stddev` is computed only when there are samples and the footer gave none. It is taken around the response's `avg`. Every summary field is rounded. |
| Base.AfterResult | src/parser/base.ts:155-160 | `getResult` leaves the phase, the lines and the samples untouched. |
| Base.ResultRepeatable | src/parser/base.ts:145-186 | A second `getResult` returns the same record and leaves the parser as the first call left it. |
| Base.AfterResultConsistent | src/parser/base.ts:155-160 | `getResult` keeps the consistency invariant. |
| ParserCore.Parser.GetResult | src/parser/base.ts:145-186 | It returns the result record and records the first sample and the samples in the parser's own response. The parser stays consistent. |
| Base.Fix | src/parser/base.ts:179-182 | A number becomes its three-decimal text. Any other value is kept. The result is never a number. |
| Base.FixOpt | src/parser/base.ts:179-182 | A `null` stays `null`. A present value is rounded. |
| Base.FormattedFields | src/parser/base.ts:176-183 | The rounding loop changes only min, avg, max, stddev and packetLoss, and rounds each one exactly when it holds a number. |
| Mac.HeaderOutcome | src/parser/mac.ts:19-27 | The header succeeds exactly on lines of at least three tokens, and then moves to `BODY`. A failing header keeps the phase and the address. |
| Mac.HeaderReadsHostAndAddress | src/parser/mac.ts:19-27 | `PING <host> (<address>): …` yields exactly that host and address. |
| ParserCore.Parser.MacHeader | src/parser/mac.ts:19-27 | The method's effect equals the macOS header step function. |
| Mac.BodyTakesLeftmostTime | src/parser/mac.ts:33-48 | On a line with three `=`, the sample is the leftmost `[0-9.]+[ ]*ms` number. Without one, no sample is taken. `---` ends the body either way. |
| ParserCore.Parser.MacBody | src/parser/mac.ts:33-48 | The method's effect equals the macOS body step function. |
| Mac.FooterSummary | src/parser/mac.ts:54-80 | Packet loss comes from the leftmost ` <n>%`. With three `/`, min/avg/max/stddev are successive global `exec` results and the output ends. Otherwise those fields and the phase stay. |
| Mac.FooterFourNumbers | src/parser/mac.ts:63-74 | With at least four numbers, min, avg, max and stddev are the first four, in that order. |
| ParserCore.Parser.MacFooter | src/parser/mac.ts:54-80 | The method's effect equals the macOS footer step function. |
| Linux.HeaderOutcome | lib/parser/linux.ts:21-37 | The header fails exactly on one token, or on two tokens where the second has no `(`. When it succeeds it moves to `BODY`. |
| Linux.HeaderReadsIPv4Shape | lib/parser/linux.ts:24-28 | `PING <host> (<address>) …` yields exactly that host and address. |
| Linux.HeaderReadsIPv6Shape | lib/parser/linux.ts:29-33 | `PING <name>(<rname> (<address>)) a b c` yields the name and the address. |
| Linux.HeaderParenthesisedRuns | lib/parser/linux.ts:29-33 | Host and address are the first and last runs of address characters. They are `null` or `undefined` exactly when there are no runs or fewer than two. |
| ParserCore.Parser.LinuxHeader | lib/parser/linux.ts:21-37 | The method's effect equals the Linux header step function. |
| Win.HeaderNumeric | lib/parser/win.ts:30-33 | Without `[`, host and address are both the first token that looks like IPv4, or `null`. The header never throws. |
| Win.HeaderBracketed | lib/parser/win.ts:35-49 | On a line without line terminators that holds `[`, the first bracketed token gives the address: the text between `[` and the last `]`, or `"NA"`. The token before it gives the host. |
| Win.HeaderReadsNameAndAddress | lib/parser/win.ts:35-49 | `Pinging <name> [<address>] …` yields exactly that name and address. |
| ParserCore.Parser.WinHeader | lib/parser/win.ts:22-53 | The method's effect equals the Windows header step function. |
| Win.IPv6FieldRepaired | lib/parser/win.ts:60-79 | The repaired fields are the `=`/`<` tokens in order. Each gets `ms` appended exactly when the token right after its first occurrence in the line is `ms`. |
| Win.IPv6StepTakesFirstTimeField | lib/parser/win.ts:59-94 | On any line, the sample is the first number of the first repaired field that mentions `ms`/`мс`. No sample is taken when no field mentions it, or when that first field has no number. |
| Scan.FirstRunCharacterised | lib/parser/win.ts:85-90 | `/([0-9.]+)/.exec` fails exactly when no character matches. Otherwise it captures the whole run starting at the first matching character. |
| Win.IPv6SplitTimeRepaired | lib/parser/win.ts:59-94 | A time split off as the token `ms` is repaired. The sample is its number. |
| ParserCore.Parser.WinIPv6Body | lib/parser/win.ts:59-94 | The method's effect equals the Windows IPv6 body step function. |
| Win.IPv4StepTakesFieldAfterAnchor | lib/parser/win.ts:100-127 | On any line, fewer than three data fields or no field holding `=<packetSize>` means no sample. Otherwise the sample is the first number of the data field after the first anchor, or `NaN` when the anchor is the last data field. |
| Win.IPv4ReplyTakesFieldAfterBytes | lib/parser/win.ts:100-127 | The sample is the first number of the data field right after the field that holds `=<packetSize>`. |
| Win.IPv4AnchorLastTakesNaN | lib/parser/win.ts:115-124 | When the anchor is the last data field, a `NaN` sample is still recorded. |
| ParserCore.Parser.WinIPv4Body | lib/parser/win.ts:100-127 | The method's effect equals the Windows IPv4 body step function. |
| Win.BodyAtMostOneSample | lib/parser/win.ts:133-146 | A line ending in `:` moves to `FOOTER` and takes no sample. Any other line keeps the phase and the response and adds at most one sample. |
| ParserCore.Parser.WinBody | lib/parser/win.ts:133-146 | The method's effect equals the Windows body step function. |
| Win.FooterSummary | lib/parser/win.ts:152-173 | Packet loss comes from the leftmost `<n>%`. On an `ms` or `мсек` line, min, max and avg are successive `exec` results, in that order, and the output ends. |
| Win.RussianUnitRecognised | lib/parser/win.ts:159 | An upper-case `МСЕК` summary is recognised, because the match ignores case. |
| ParserCore.Parser.WinFooter | lib/parser/win.ts:152-173 | The method's effect equals the Windows footer step function. |
| ParserCore.Parser.ProcessHeader | src/parser/base.ts:126-127 | The header handler of the parser's own platform runs. |
| ParserCore.Parser.ProcessBody | lib/parser/linux.ts:43-46 | Linux reuses the macOS body handler. |
| ParserCore.Parser.ProcessFooter | lib/parser/linux.ts:52-55 | Linux reuses the macOS footer handler. |
| Scan.RunsCharacterised | lib/parser/linux.ts:31 | The matches of `/(P+)/g` are non-empty runs of `P` characters. Together they are exactly the string's `P` characters, in order. |
| Scan.ExecSeqCycles | src/parser/mac.ts:63-68 | Successive `exec` calls on one global regex return the runs in order, then a miss, then the runs again. |
| Scan.FirstTaggedSound | src/parser/mac.ts:37-38 | The scanner finds the leftmost `([0-9.]+)<tail>` and captures the whole number. It finds nothing exactly when there is no occurrence. |
| Scan.BracketWithoutTerminators | lib/parser/win.ts:39 | On a token without line terminators, `/\[(.*)\]/` captures from the first `[` to the last `]` after it. It fails when no `]` follows. |
| ParserFactory.ParserDialectByFamily | lib/parser/factory.ts:22-40 | An unsupported platform throws. A supported one gets its family's parser, never `null`. |
| ParserFactory.ParserMatchesBuilder | lib/parser/factory.ts:26-37 | A platform gets a parser exactly when it gets a builder, and both belong to the same family. |
| ParserFactory.CreateParser | lib/parser/factory.ts:22-40 | It refuses exactly the unsupported platforms. Otherwise it returns a fresh parser of the right platform in its initial state. |
| Config.Filled | src/builder/linux.ts:65-68 | A boolean is kept. Any other value is kept when truthy and otherwise replaced by the default. |
| Config.FilledIdempotent | src/builder/linux.ts:64-69 | Filling twice is filling once. |
| Config.FilledEntriesLookup | src/builder/linux.ts:64-69 | After filling, every listed key holds its filled value and every other key is unchanged. |
| Config.ConfigObject.FillDefaults | src/builder/linux.ts:64-69 | The caller's object ends up holding exactly the filled entries. |
| LinuxBuilder.FilledLookup | src/builder/linux.ts:29-69 | Every Linux option is filled from the Linux defaults. |
| LinuxBuilder.FilledWellTyped | src/builder/linux.ts:29-69 | Filling keeps the options well typed. |
| LinuxBuilder.TableDistinct | src/builder/linux.ts:71-93 | The six options have distinct flags. |
| LinuxBuilder.Emit | src/builder/linux.ts:71-101 | Growing the list option by option gives exactly the specified argument list. |
| LinuxBuilder.GetCommandArguments | src/builder/linux.ts:47-102 | It writes the filled configuration back to the caller and returns the arguments of that configuration. |
| LinuxBuilder.EmptyConfigArguments | src/builder/linux.ts:29-101 | An empty configuration gives `-n -W 2 -c 1 -s 56 <target>`. |
| LinuxBuilder.TargetLast | src/builder/linux.ts:95-99 | The target comes last, directly after the extra words. |
| LinuxBuilder.CountsAlwaysEmitted | src/builder/linux.ts:64-93 | `-W`, `-c` and `-s` are always emitted unless set to a boolean. |
| LinuxBuilder.DeadlineAndSourceOnlyWhenSet | src/builder/linux.ts:79-89 | `-w` is emitted exactly when the deadline is truthy, and `-I` exactly when the source address is set. |
| WinBuilder.Milliseconds | lib/builder/win.ts:68-71 | `timeout * 1000` is a number, truthy exactly when the timeout is. |
| WinBuilder.FilledLookup | lib/builder/win.ts:22-56 | The listed options are filled from the Windows defaults. `deadline` is left as given. |
| WinBuilder.FilledWellTyped | lib/builder/win.ts:22-56 | Filling keeps the options well typed. |
| WinBuilder.TableDistinct | lib/builder/win.ts:58-97 | The six options have distinct flags. |
| WinBuilder.Emit | lib/builder/win.ts:58-103 | Growing the list option by option gives exactly the specified arguments, or refuses a deadline. |
| WinBuilder.GetCommandArguments | lib/builder/win.ts:40-106 | It writes the filled configuration back to the caller and returns that configuration's arguments or the refusal. |
| WinBuilder.EmptyConfigArguments | lib/builder/win.ts:22-103 | An empty configuration gives `-4 -w 5000 -n 1 -l 32 <target>`. |
| WinBuilder.FamilyFirstTargetLast | lib/builder/win.ts:58-103 | The address family comes first, the target last, and the extra words directly before the target. |
| WinBuilder.NameLookupOnlyWhenNumericFalse | lib/builder/win.ts:51-62 | `-a` is emitted exactly when `numeric` was `false`. |
| WinBuilder.TimeoutInMilliseconds | lib/builder/win.ts:64-72 | A timeout of `n` seconds becomes `-w n*1000`. |
| WinBuilder.DefaultTimeout | lib/builder/win.ts:22-72 | A missing, `null` or zero timeout becomes `-w 5000`. |
| WinBuilder.DeadlineRefused | lib/builder/win.ts:74-76 | The arguments are refused exactly when the deadline is truthy, and then with the deadline error. |
| BuilderFactory.Classification | lib/builder/factory.ts:17-53 | Each test holds exactly on its family's names. A platform is supported exactly when it has a family. |
| BuilderFactory.FamiliesDisjoint | lib/builder/factory.ts:17-44 | No platform name is in two families. |
| BuilderFactory.ExecutablePathByFamily | lib/builder/factory.ts:62-80 | Gives the executable for each family, with `aix` first. An unsupported platform throws. A supported one never gets `null`. |
| BuilderFactory.BuilderByFamily | lib/builder/factory.ts:88-104 | Each family gets its builder, never `null`. Other platforms are refused. |
| BuilderFactory.MissingPlatformIsWindow | lib/builder/factory.ts:42-53 | As written, a missing platform counts as Windows and as supported. The corrected tests refuse it. |
| BuilderFactory.CorrectedAgreesOnStrings | lib/builder/factory.ts:42-53 | On every platform name, the corrected tests agree with the written ones. |
| Argv.Chosen | src/builder/linux.ts:71-93 | Every chosen option is the words of a switched-on row, and every switched-on row's words are chosen. There are at most as many as rows. |
| Argv.TableWordsChosen | src/builder/linux.ts:71-97 | The words of the switched-on options are laid end to end, in table order. |
| Argv.ChosenExactly | src/builder/linux.ts:71-93 | With distinct flags, an option is emitted exactly when its condition holds. |
| Js.JoinSplit | lib/ping.ts:92 | Splitting on `\n` and joining again gives back the text. |
| Js.SplitJoin | lib/ping.ts:92 | Joining separator-free tokens and splitting again gives back the tokens. |
| Js.FindThenIndexOf | lib/parser/win.ts:36-38 | `indexOf` of what `find` returns is the first position where the test holds. |
| Js.DigitsRoundTrip | src/builder/linux.ts:76 | Reading back the printed digits of a number gives the number. |

## Left out

- `Ping.probe` (lib/ping.ts) spawns a process and resolves a promise. Only its parsing flow is modelled, as `Dispatch.Report` and `ParserCore.Parser.EatLines`. The process, the stream events and asynchrony are not modelled.
- Floating point is not modelled. `parseFloat`, the mean-square deviation, `Math.round` and `toFixed(3)` are kept as symbolic `Reading`s, so numeric values of the statistics are not computed.
- Js.FormatD: configuration numbers are unbounded integers, and the model prints any of them in full decimal. Node's `util.format('%d', v)` prints `Number(v)` as a JavaScript number. A non-integer prints in full (`1.5` gives `"1.5"`). Magnitudes beyond 2^53 can lose precision (2^53+1 prints as `9007199254740992`). From 1e21 up it prints exponent form (`1e+21`). The model covers none of these. So it differs from the source on the Windows `-w` value once `timeout * 1000` exceeds 2^53, and on the Linux `-W`, `-w`, `-c` and `-s` values beyond 2^53.
- `getSpawnOptions` of both builders is not modelled. It only returns constant options for `child_process.spawn`.
- The `MacBuilder` is not part of this model. The factory only names it.
- The `IPV4REGEX` constant of the Windows parser is not part of this model. It is a parameter `isIPv4` of the parser.
- `process.env.SystemRoot` is a parameter of `BuilderFactory.ExecutablePath`.
- `eat`'s "Unknown state" throw (src/parser/base.ts:134-135) is not modelled. `STATES` is a numeric TypeScript enum, so `Object.values(STATES)` holds both the names and the numbers, and `_changeState("BODY")` would pass the check at src/parser/base.ts:83-86 and store a string that `eat` then rejects. In the source the throw is unreachable only because every call site passes a numeric member. ParserCore.Parser.ChangeState takes integer codes only, and the phase is a closed datatype, so a stored name is not representable.
- After `getResult`, `_response.times` and `_times` alias one array. The model copies the sequence, so later samples are not seen through the alias.
- `v6` and the `=<packetSize>` token are read from the configuration once, when the parser is constructed. The source reads them on every body line, so a configuration changed after construction is not followed.
- ParserFactory.CreateParser: requires, as the parser constructor does, that the configured `packetSize` is a number, boolean, `null` or missing. `createParser` also accepts a string (`util.format('=%d', "64")` is `"=64"`) or a list, which the model does not cover.
- ParserCore.Parser.constructor: requires that the configured `packetSize` is a number, boolean, `null` or missing. `util.format('%d', …)` of a string or a list is not modelled.
- LinuxBuilder.GetCommandArguments: requires that the options have the types `PingConfig` declares. Values of other types are not modelled.
- WinBuilder.GetCommandArguments: requires that the options have the types `PingConfig` declares. Values of other types are not modelled.
- Strings are sequences of Unicode characters. JavaScript's `slice`, `length` and `indexOf` count UTF-16 code units, so the header handlers' `slice(1, -2)` (macOS) and `slice(1, -1)` (Linux) differ from the model on text outside the Basic Multilingual Plane: for the token `(a😀` the source keeps `a` and the model keeps nothing. The Windows body's `slice(-1) === ':'` gives the same answer either way, since `:` is one code unit.
- Configuration keys outside the eight `PingConfig` options are not modelled. They are neither read nor filled.

## Findings

| source | as written | input that shows it | evidently intended | confidence | as-written member | corrected member |
|---|---|---|---|---|---|---|
| lib/builder/factory.ts:42-44 | `p?.match(/^win/) !== null` is `true` for a missing platform, because `undefined !== null` | `isWindow(undefined)` (and so `isPlatformSupport(undefined)`) | `false`: a missing platform is not Windows and is not supported | not executed | BuilderFactory.MissingPlatformIsWindow | BuilderFactory.CorrectedAgreesOnStrings |
