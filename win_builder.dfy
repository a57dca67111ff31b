/** The Windows argument builder: fills the configuration with the Windows defaults, in place,
    then emits `-6`/`-4`, `-a`, `-w` (in milliseconds), `-n`, `-S`, `-l`, the extra words and
    the target, and refuses a deadline. */
module WinBuilder {
  import opened Js
  import opened Config
  import opened Argv

  /** The keys filled with defaults, in the order they are filled; `deadline` is not one. */
  const Keys: seq<Key> := [Numeric, Timeout, MinReply, V6, SourceAddr, Extra, PacketSize]

  /** The Windows defaults (there is none for `deadline`, which is never filled). */
  function Defaults(key: Key): Value
  {
    match key
    case Numeric => Bool(true)
    case Timeout => Num(5)
    case Deadline => Undefined
    case MinReply => Num(1)
    case V6 => Bool(false)
    case SourceAddr => Str("")
    case PacketSize => Num(32)
    case Extra => Arr([])
  }

  /** What the options' declared types guarantee and the formatting needs. */
  predicate WellTyped(c: map<Key, Value>)
  {
    && NumberLike(Lookup(c, Timeout)) && NumberLike(Lookup(c, MinReply)) && NumberLike(Lookup(c, PacketSize))
    && !Lookup(c, SourceAddr).Arr?
  }

  /** `v * 1000`: seconds to milliseconds, with JavaScript's coercion of the operand. */
  function Milliseconds(v: Value): (r: Value)
    requires NumberLike(v)
    ensures NumberLike(r)
    ensures v.Num? ==> r == Num(v.n * 1000)
    ensures Truthy(r) <==> Truthy(v)
  {
    match v
    case Undefined => Undefined
    case Null => Num(0)
    case Bool(b) => Num(if b then 1000 else 0)
    case Num(n) => Num(n * 1000)
  }

  function VersionRow(v: Value): Row
  {
    Row(true, [if Truthy(v) then "-6" else "-4"])
  }

  function NameRow(v: Value): Row
  {
    Row(!Truthy(v), ["-a"])
  }

  function TimeoutRow(v: Value): Row
    requires NumberLike(v)
  {
    Row(Truthy(v), ["-w", FormatD(Milliseconds(v))])
  }

  function CountRow(v: Value): Row
    requires NumberLike(v)
  {
    Row(Truthy(v), ["-n", FormatD(v)])
  }

  function SourceRow(v: Value): Row
    requires !v.Arr?
  {
    Row(Truthy(v), ["-S", Text(v)])
  }

  function SizeRow(v: Value): Row
    requires NumberLike(v)
  {
    Row(Truthy(v), ["-l", FormatD(v)])
  }

  /** The options in the order they are emitted, each with the condition that emits it. */
  function Table(c: map<Key, Value>): (t: seq<Row>)
    requires WellTyped(c)
    ensures |t| == 6
  {
    [ VersionRow(Lookup(c, V6)), NameRow(Lookup(c, Numeric)), TimeoutRow(Lookup(c, Timeout)),
      CountRow(Lookup(c, MinReply)), SourceRow(Lookup(c, SourceAddr)), SizeRow(Lookup(c, PacketSize)) ]
  }

  lemma TableDistinct(c: map<Key, Value>)
    requires WellTyped(c)
    ensures DistinctFlags(Table(c))
  {
    var t := Table(c);
    var letters := [if Truthy(Lookup(c, V6)) then '6' else '4'] + "awnSl";
    DistinctByLetter(t, letters);
  }

  /** The words of `extra`, when it is set. */
  function ExtraWords(c: map<Key, Value>): seq<string>
  {
    if Truthy(Lookup(c, Extra)) then ConcatItems(Lookup(c, Extra)) else []
  }

  /** The argument list for a filled configuration, or the refusal of a deadline. */
  function Arguments(target: string, c: map<Key, Value>): Result<seq<string>>
    requires WellTyped(c)
  {
    if Truthy(Lookup(c, Deadline)) then Err(NoDeadlineOnWindows)
    else Ok(TableWords(Table(c)) + ExtraWords(c) + [target])
  }

  /** Every listed option is filled; `deadline` is left as the caller gave it. */
  lemma FilledLookup(m: map<Key, Value>, key: Key)
    ensures Lookup(FilledEntries(m, Keys, Defaults), key)
      == if key == Deadline then Lookup(m, key) else Filled(Lookup(m, key), Defaults(key))
  {
    if key == Deadline {
      assert key !in Keys;
    } else {
      assert key in Keys by {
        match key
        case Numeric => assert Keys[0] == key;
        case Timeout => assert Keys[1] == key;
        case MinReply => assert Keys[2] == key;
        case V6 => assert Keys[3] == key;
        case SourceAddr => assert Keys[4] == key;
        case Extra => assert Keys[5] == key;
        case PacketSize => assert Keys[6] == key;
      }
    }
    FilledEntriesLookup(m, Keys, Defaults, key);
  }

  /** Filling keeps the options well typed: every default is. */
  lemma FilledWellTyped(m: map<Key, Value>)
    requires WellTyped(m)
    ensures WellTyped(FilledEntries(m, Keys, Defaults))
  {
    FilledLookup(m, Timeout);
    FilledLookup(m, MinReply);
    FilledLookup(m, PacketSize);
    FilledLookup(m, SourceAddr);
  }

  /** `getCommandArguments(target, config)`: a missing configuration is replaced by a fresh
      empty one, the defaults are written into the caller's object (also when a deadline is
      then refused), then the list is built. */
  method GetCommandArguments(target: string, config: ConfigObject?) returns (r: Result<seq<string>>)
    requires config != null ==> WellTyped(config.entries)
    modifies config
    ensures config != null ==> config.entries == FilledEntries(old(config.entries), Keys, Defaults)
    ensures var m := if config == null then map[] else old(config.entries);
      WellTyped(FilledEntries(m, Keys, Defaults)) && r == Arguments(target, FilledEntries(m, Keys, Defaults))
  {
    var c := config;
    if c == null {
      c := new ConfigObject(map[]);
    }
    FilledWellTyped(c.entries);
    c.FillDefaults(Keys, Defaults);
    r := Emit(target, c.entries);
  }

  /** The list grown option by option from a filled configuration; the deadline check sits
      between `-w` and `-n`. */
  method Emit(target: string, c: map<Key, Value>) returns (r: Result<seq<string>>)
    requires WellTyped(c)
    ensures r == Arguments(target, c)
  {
    var v6 := Lookup(c, V6);
    var numeric := Lookup(c, Numeric);
    var timeout := Lookup(c, Timeout);
    var deadline := Lookup(c, Deadline);
    var minReply := Lookup(c, MinReply);
    var sourceAddr := Lookup(c, SourceAddr);
    var packetSize := Lookup(c, PacketSize);
    var extra := Lookup(c, Extra);
    var ret: seq<string> := [];
    ghost var before := ret;
    ret := ret + [if Truthy(v6) then "-6" else "-4"];
    AppendWhen(before, VersionRow(v6), ret);
    before := ret;
    if !Truthy(numeric) {
      ret := ret + ["-a"];
    }
    AppendWhen(before, NameRow(numeric), ret);
    before := ret;
    if Truthy(timeout) {
      ret := ret + ["-w", FormatD(Milliseconds(timeout))];
    }
    AppendWhen(before, TimeoutRow(timeout), ret);
    if Truthy(deadline) {
      return Err(NoDeadlineOnWindows);
    }
    before := ret;
    if Truthy(minReply) {
      ret := ret + ["-n", FormatD(minReply)];
    }
    AppendWhen(before, CountRow(minReply), ret);
    before := ret;
    if Truthy(sourceAddr) {
      ret := ret + ["-S", Text(sourceAddr)];
    }
    AppendWhen(before, SourceRow(sourceAddr), ret);
    before := ret;
    if Truthy(packetSize) {
      ret := ret + ["-l", FormatD(packetSize)];
    }
    AppendWhen(before, SizeRow(packetSize), ret);
    TableWordsOfSix(VersionRow(v6), NameRow(numeric), TimeoutRow(timeout), CountRow(minReply), SourceRow(sourceAddr), SizeRow(packetSize));
    assert [] + RowWords(VersionRow(v6)) == RowWords(VersionRow(v6));
    assert Table(c) == [VersionRow(v6), NameRow(numeric), TimeoutRow(timeout), CountRow(minReply), SourceRow(sourceAddr), SizeRow(packetSize)];
    assert ret == TableWords(Table(c));
    before := ret;
    if Truthy(extra) {
      ret := ret + ConcatItems(extra);
    }
    AppendWhen(before, Row(Truthy(extra), ConcatItems(extra)), ret);
    ret := ret + [target];
    r := Ok(ret);
  }

  // ---------------------------------------------------------------- properties

  /** With none of the options configured the command is `-4 -w 5000 -n 1 -l 32 <target>`. */
  lemma EmptyConfigArguments(target: string, m: map<Key, Value>)
    requires forall k :: k !in m
    ensures WellTyped(FilledEntries(m, Keys, Defaults))
    ensures Arguments(target, FilledEntries(m, Keys, Defaults)) == Ok(["-4", "-w", "5000", "-n", "1", "-l", "32", target])
  {
    var c := FilledEntries(m, Keys, Defaults);
    FilledDefaultTable(m);
    FilledNoExtra(m);
    FilledNoDeadline(m);
    ArgumentsOfParts(target, c, DefaultTable(), ConcatItems(Arr([])));
    DefaultWords(target);
  }

  /** Helper: the arguments of a configuration without a deadline, given its table and extras. */
  lemma ArgumentsOfParts(target: string, c: map<Key, Value>, t: seq<Row>, extra: seq<string>)
    requires WellTyped(c) && !Truthy(Lookup(c, Deadline)) && Table(c) == t && ExtraWords(c) == extra
    ensures Arguments(target, c) == Ok(TableWords(t) + extra + [target])
  {
  }

  /** Helper: an empty configuration gets the default empty `extra` list. */
  lemma FilledNoExtra(m: map<Key, Value>)
    requires forall k :: k !in m
    ensures ExtraWords(FilledEntries(m, Keys, Defaults)) == ConcatItems(Arr([]))
  {
    FilledLookup(m, Extra);
  }

  /** Helper: an empty configuration sets no deadline. */
  lemma FilledNoDeadline(m: map<Key, Value>)
    requires forall k :: k !in m
    ensures !Truthy(Lookup(FilledEntries(m, Keys, Defaults), Deadline))
  {
    FilledLookup(m, Deadline);
  }

  /** Helper: filling an empty configuration gives the default table. */
  lemma FilledDefaultTable(m: map<Key, Value>)
    requires forall k :: k !in m
    ensures WellTyped(FilledEntries(m, Keys, Defaults)) && Table(FilledEntries(m, Keys, Defaults)) == DefaultTable()
  {
    FilledLookup(m, V6);
    FilledLookup(m, Numeric);
    FilledLookup(m, Timeout);
    FilledLookup(m, MinReply);
    FilledLookup(m, SourceAddr);
    FilledLookup(m, PacketSize);
  }

  function DefaultTable(): seq<Row>
  {
    [VersionRow(Bool(false)), NameRow(Bool(true)), TimeoutRow(Num(5)), CountRow(Num(1)), SourceRow(Str("")), SizeRow(Num(32))]
  }

  lemma DefaultWords(target: string)
    ensures TableWords(DefaultTable()) + ConcatItems(Arr([])) + [target] == ["-4", "-w", "5000", "-n", "1", "-l", "32", target]
  {
    var r0, r1, r2 := VersionRow(Bool(false)), NameRow(Bool(true)), TimeoutRow(Num(5));
    var r3, r4, r5 := CountRow(Num(1)), SourceRow(Str("")), SizeRow(Num(32));
    TableWordsOfSix(r0, r1, r2, r3, r4, r5);
    DefaultRowWords();
    Splice("-4", "-w", "5000", "-n", "1", "-l", "32", target);
  }

  /** Helper: the words of each default row. */
  lemma DefaultRowWords()
    ensures RowWords(VersionRow(Bool(false))) == ["-4"] && RowWords(NameRow(Bool(true))) == []
    ensures RowWords(TimeoutRow(Num(5))) == ["-w", "5000"] && RowWords(CountRow(Num(1))) == ["-n", "1"]
    ensures RowWords(SourceRow(Str(""))) == [] && RowWords(SizeRow(Num(32))) == ["-l", "32"]
  {
    DefaultTimeoutRow();
    SmallDecimals();
  }

  lemma Splice(a: string, b: string, c: string, d: string, e: string, f: string, g: string, t: string)
    ensures [a] + [] + [b, c] + [d, e] + [] + [f, g] + [] + [t] == [a, b, c, d, e, f, g, t]
  {
  }

  /** The address family comes first, the target last, and the extra words right before it. */
  lemma FamilyFirstTargetLast(target: string, c: map<Key, Value>)
    requires WellTyped(c) && Arguments(target, c).Ok?
    ensures var a := Arguments(target, c).value;
      && a[0] == (if Truthy(Lookup(c, V6)) then "-6" else "-4")
      && a[|a| - 1] == target && a[|a| - 1 - |ExtraWords(c)| .. |a| - 1] == ExtraWords(c)
  {
    var t := Table(c);
    TableWordsOfSix(t[0], t[1], t[2], t[3], t[4], t[5]);
    assert t == [t[0], t[1], t[2], t[3], t[4], t[5]];
    assert RowWords(t[0]) == [if Truthy(Lookup(c, V6)) then "-6" else "-4"];
  }

  /** `-a` (resolve addresses to names) is emitted exactly when the caller set `numeric` to
      `false`: every other falsy value is replaced by the default `true`. */
  lemma NameLookupOnlyWhenNumericFalse(m: map<Key, Value>)
    requires WellTyped(m)
    ensures var c := FilledEntries(m, Keys, Defaults);
      WellTyped(c) && (["-a"] in Chosen(Table(c)) <==> Lookup(m, Numeric) == Bool(false))
  {
    var c := FilledEntries(m, Keys, Defaults);
    FilledWellTyped(m);
    FilledLookup(m, Numeric);
    TableDistinct(c);
    ChosenExactly(Table(c), 1);
  }

  /** The timeout is given to Windows in milliseconds: a timeout of `n` seconds, `n` not
      zero, becomes `-w n*1000`. */
  lemma TimeoutInMilliseconds(m: map<Key, Value>, n: int)
    requires WellTyped(m) && Lookup(m, Timeout) == Num(n) && n != 0
    ensures var c := FilledEntries(m, Keys, Defaults);
      WellTyped(c) && ["-w", Decimal(n * 1000)] in Chosen(Table(c))
  {
    var c := FilledEntries(m, Keys, Defaults);
    FilledWellTyped(m);
    FilledLookup(m, Timeout);
    assert Lookup(c, Timeout) == Num(n);
    TableDistinct(c);
    ChosenExactly(Table(c), 2);
  }

  /** A missing, null or zero timeout becomes the default `-w 5000`. */
  lemma DefaultTimeout(m: map<Key, Value>)
    requires WellTyped(m) && !Truthy(Lookup(m, Timeout)) && !Lookup(m, Timeout).Bool?
    ensures var c := FilledEntries(m, Keys, Defaults);
      WellTyped(c) && ["-w", "5000"] in Chosen(Table(c))
  {
    var c := FilledEntries(m, Keys, Defaults);
    FilledWellTyped(m);
    FilledLookup(m, Timeout);
    var t := Table(c);
    assert t[2] == TimeoutRow(Num(5));
    DefaultTimeoutRow();
    TableDistinct(c);
    ChosenExactly(t, 2);
  }

  lemma DefaultTimeoutRow()
    ensures TimeoutRow(Num(5)) == Row(true, ["-w", "5000"])
  {
    SmallDecimals();
  }

  /** A truthy deadline is refused, whatever else is configured; filling leaves it alone. */
  lemma DeadlineRefused(target: string, m: map<Key, Value>)
    requires WellTyped(m)
    ensures WellTyped(FilledEntries(m, Keys, Defaults))
    ensures Arguments(target, FilledEntries(m, Keys, Defaults)).Err? <==> Truthy(Lookup(m, Deadline))
    ensures Truthy(Lookup(m, Deadline)) ==> Arguments(target, FilledEntries(m, Keys, Defaults)) == Err(NoDeadlineOnWindows)
  {
    FilledWellTyped(m);
    FilledLookup(m, Deadline);
  }
}
