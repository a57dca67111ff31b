/** The Linux argument builder: fills the configuration with the Linux defaults, in place,
    then emits `-n -W -w -c -I -s`, the extra words and the target. */
module LinuxBuilder {
  import opened Js
  import opened Config
  import opened Argv

  /** The keys filled with defaults, in the order they are filled. */
  const Keys: seq<Key> := [Numeric, Timeout, Deadline, MinReply, V6, SourceAddr, Extra, PacketSize]

  /** The Linux defaults. */
  function Defaults(key: Key): Value
  {
    match key
    case Numeric => Bool(true)
    case Timeout => Num(2)
    case Deadline => Bool(false)
    case MinReply => Num(1)
    case V6 => Bool(false)
    case SourceAddr => Str("")
    case PacketSize => Num(56)
    case Extra => Arr([])
  }

  /** What the options' declared types guarantee and the formatting needs: the numeric options
      are numbers (or booleans, or unset) and the source address is not a list. */
  predicate WellTyped(c: map<Key, Value>)
  {
    && NumberLike(Lookup(c, Timeout)) && NumberLike(Lookup(c, Deadline))
    && NumberLike(Lookup(c, MinReply)) && NumberLike(Lookup(c, PacketSize))
    && !Lookup(c, SourceAddr).Arr?
  }

  /** The options in the order they are emitted, each with the condition that emits it. */
  function Table(c: map<Key, Value>): (t: seq<Row>)
    requires WellTyped(c)
    ensures |t| == 6
  {
    [ NumericRow(Lookup(c, Numeric)), TimeoutRow(Lookup(c, Timeout)), DeadlineRow(Lookup(c, Deadline)),
      CountRow(Lookup(c, MinReply)), SourceRow(Lookup(c, SourceAddr)), SizeRow(Lookup(c, PacketSize)) ]
  }

  function NumericRow(v: Value): Row
  {
    Row(Truthy(v), ["-n"])
  }

  function TimeoutRow(v: Value): Row
    requires NumberLike(v)
  {
    Row(Truthy(v), ["-W", FormatD(v)])
  }

  function DeadlineRow(v: Value): Row
    requires NumberLike(v)
  {
    Row(Truthy(v), ["-w", FormatD(v)])
  }

  function CountRow(v: Value): Row
    requires NumberLike(v)
  {
    Row(Truthy(v), ["-c", FormatD(v)])
  }

  function SourceRow(v: Value): Row
    requires !v.Arr?
  {
    Row(Truthy(v), ["-I", Text(v)])
  }

  function SizeRow(v: Value): Row
    requires NumberLike(v)
  {
    Row(Truthy(v), ["-s", FormatD(v)])
  }

  lemma TableDistinct(c: map<Key, Value>)
    requires WellTyped(c)
    ensures DistinctFlags(Table(c))
  {
    var t := Table(c);
    var letters := "nWwcIs";
    DistinctByLetter(t, letters);
  }

  /** The words of `extra`, when it is set. */
  function ExtraWords(c: map<Key, Value>): seq<string>
  {
    if Truthy(Lookup(c, Extra)) then ConcatItems(Lookup(c, Extra)) else []
  }

  /** The argument list for a filled configuration. */
  function Arguments(target: string, c: map<Key, Value>): seq<string>
    requires WellTyped(c)
  {
    TableWords(Table(c)) + ExtraWords(c) + [target]
  }

  /** Every option is filled: each ends up as given when that was a boolean or truthy, and
      as its default otherwise. */
  lemma FilledLookup(m: map<Key, Value>, key: Key)
    ensures Lookup(FilledEntries(m, Keys, Defaults), key) == Filled(Lookup(m, key), Defaults(key))
  {
    assert key in Keys by {
      match key
      case Numeric => assert Keys[0] == key;
      case Timeout => assert Keys[1] == key;
      case Deadline => assert Keys[2] == key;
      case MinReply => assert Keys[3] == key;
      case V6 => assert Keys[4] == key;
      case SourceAddr => assert Keys[5] == key;
      case Extra => assert Keys[6] == key;
      case PacketSize => assert Keys[7] == key;
    }
    FilledEntriesLookup(m, Keys, Defaults, key);
  }

  /** Filling keeps the options well typed: every default is. */
  lemma FilledWellTyped(m: map<Key, Value>)
    requires WellTyped(m)
    ensures WellTyped(FilledEntries(m, Keys, Defaults))
  {
    FilledLookup(m, Timeout);
    FilledLookup(m, Deadline);
    FilledLookup(m, MinReply);
    FilledLookup(m, PacketSize);
    FilledLookup(m, SourceAddr);
  }

  /** `getCommandArguments(target, config)`: a missing configuration is replaced by a fresh
      empty one, the defaults are written into the caller's object, then the list is built. */
  method GetCommandArguments(target: string, config: ConfigObject?) returns (ret: seq<string>)
    requires config != null ==> WellTyped(config.entries)
    modifies config
    ensures config != null ==> config.entries == FilledEntries(old(config.entries), Keys, Defaults)
    ensures var m := if config == null then map[] else old(config.entries);
      WellTyped(FilledEntries(m, Keys, Defaults)) && ret == Arguments(target, FilledEntries(m, Keys, Defaults))
  {
    var c := config;
    if c == null {
      c := new ConfigObject(map[]);
    }
    FilledWellTyped(c.entries);
    c.FillDefaults(Keys, Defaults);
    ret := Emit(target, c.entries);
  }

  /** The list grown option by option from a filled configuration. */
  method Emit(target: string, c: map<Key, Value>) returns (ret: seq<string>)
    requires WellTyped(c)
    ensures ret == Arguments(target, c)
  {
    var numeric := Lookup(c, Numeric);
    var timeout := Lookup(c, Timeout);
    var deadline := Lookup(c, Deadline);
    var minReply := Lookup(c, MinReply);
    var sourceAddr := Lookup(c, SourceAddr);
    var packetSize := Lookup(c, PacketSize);
    var extra := Lookup(c, Extra);
    ret := [];
    ghost var before := ret;
    if Truthy(numeric) {
      ret := ret + ["-n"];
    }
    AppendWhen(before, NumericRow(numeric), ret);
    before := ret;
    if Truthy(timeout) {
      ret := ret + ["-W", FormatD(timeout)];
    }
    AppendWhen(before, TimeoutRow(timeout), ret);
    before := ret;
    if Truthy(deadline) {
      ret := ret + ["-w", FormatD(deadline)];
    }
    AppendWhen(before, DeadlineRow(deadline), ret);
    before := ret;
    if Truthy(minReply) {
      ret := ret + ["-c", FormatD(minReply)];
    }
    AppendWhen(before, CountRow(minReply), ret);
    before := ret;
    if Truthy(sourceAddr) {
      ret := ret + ["-I", Text(sourceAddr)];
    }
    AppendWhen(before, SourceRow(sourceAddr), ret);
    before := ret;
    if Truthy(packetSize) {
      ret := ret + ["-s", FormatD(packetSize)];
    }
    AppendWhen(before, SizeRow(packetSize), ret);
    TableWordsOfSix(NumericRow(numeric), TimeoutRow(timeout), DeadlineRow(deadline), CountRow(minReply), SourceRow(sourceAddr), SizeRow(packetSize));
    assert [] + RowWords(NumericRow(numeric)) == RowWords(NumericRow(numeric));
    assert Table(c) == [NumericRow(numeric), TimeoutRow(timeout), DeadlineRow(deadline), CountRow(minReply), SourceRow(sourceAddr), SizeRow(packetSize)];
    assert ret == TableWords(Table(c));
    before := ret;
    if Truthy(extra) {
      ret := ret + ConcatItems(extra);
    }
    AppendWhen(before, Row(Truthy(extra), ConcatItems(extra)), ret);
    ret := ret + [target];
  }

  // ---------------------------------------------------------------- properties

  /** With none of the options configured the command is `-n -W 2 -c 1 -s 56 <target>`. */
  lemma EmptyConfigArguments(target: string, m: map<Key, Value>)
    requires forall k :: k !in m
    ensures WellTyped(FilledEntries(m, Keys, Defaults))
    ensures Arguments(target, FilledEntries(m, Keys, Defaults)) == ["-n", "-W", "2", "-c", "1", "-s", "56", target]
  {
    var c := FilledEntries(m, Keys, Defaults);
    FilledDefaultTable(m);
    FilledNoExtra(m);
    ArgumentsOfParts(target, c, DefaultTable(), ConcatItems(Arr([])));
    DefaultWords(target);
  }

  /** Helper: the arguments, from the table and the extra words. */
  lemma ArgumentsOfParts(target: string, c: map<Key, Value>, t: seq<Row>, extra: seq<string>)
    requires WellTyped(c) && Table(c) == t && ExtraWords(c) == extra
    ensures Arguments(target, c) == TableWords(t) + extra + [target]
  {
  }

  /** Helper: an empty configuration gets the default empty `extra` list. */
  lemma FilledNoExtra(m: map<Key, Value>)
    requires forall k :: k !in m
    ensures ExtraWords(FilledEntries(m, Keys, Defaults)) == ConcatItems(Arr([]))
  {
    FilledLookup(m, Extra);
  }

  /** Helper: filling an empty configuration gives the default table. */
  lemma FilledDefaultTable(m: map<Key, Value>)
    requires forall k :: k !in m
    ensures WellTyped(FilledEntries(m, Keys, Defaults)) && Table(FilledEntries(m, Keys, Defaults)) == DefaultTable()
  {
    FilledLookup(m, Numeric);
    FilledLookup(m, Timeout);
    FilledLookup(m, Deadline);
    FilledLookup(m, MinReply);
    FilledLookup(m, SourceAddr);
    FilledLookup(m, PacketSize);
  }

  function DefaultTable(): seq<Row>
  {
    [NumericRow(Bool(true)), TimeoutRow(Num(2)), DeadlineRow(Bool(false)), CountRow(Num(1)), SourceRow(Str("")), SizeRow(Num(56))]
  }

  lemma DefaultWords(target: string)
    ensures TableWords(DefaultTable()) + ConcatItems(Arr([])) + [target] == ["-n", "-W", "2", "-c", "1", "-s", "56", target]
  {
    var r0, r1, r2 := NumericRow(Bool(true)), TimeoutRow(Num(2)), DeadlineRow(Bool(false));
    var r3, r4, r5 := CountRow(Num(1)), SourceRow(Str("")), SizeRow(Num(56));
    TableWordsOfSix(r0, r1, r2, r3, r4, r5);
    SmallDecimals();
    assert RowWords(r0) == ["-n"] && RowWords(r1) == ["-W", "2"] && RowWords(r2) == [];
    assert RowWords(r3) == ["-c", "1"] && RowWords(r4) == [] && RowWords(r5) == ["-s", "56"];
    Splice("-n", "-W", "2", "-c", "1", "-s", "56", target);
  }

  lemma Splice(a: string, b: string, c: string, d: string, e: string, f: string, g: string, t: string)
    ensures [a] + [b, c] + [] + [d, e] + [] + [f, g] + [] + [t] == [a, b, c, d, e, f, g, t]
  {
  }

  /** The target is the last word and the extra words come right before it. */
  lemma TargetLast(target: string, c: map<Key, Value>)
    requires WellTyped(c)
    ensures var a := Arguments(target, c);
      a[|a| - 1] == target && a[|a| - 1 - |ExtraWords(c)| .. |a| - 1] == ExtraWords(c)
  {
  }

  /** `-W`, `-c` and `-s` are always emitted unless the caller set them to a boolean: a
      missing or falsy number falls back to a non-zero default. */
  lemma CountsAlwaysEmitted(m: map<Key, Value>)
    requires WellTyped(m)
    requires !Lookup(m, Timeout).Bool? && !Lookup(m, MinReply).Bool? && !Lookup(m, PacketSize).Bool?
    ensures var c := FilledEntries(m, Keys, Defaults);
      WellTyped(c)
      && ["-W", FormatD(Lookup(c, Timeout))] in Chosen(Table(c))
      && ["-c", FormatD(Lookup(c, MinReply))] in Chosen(Table(c))
      && ["-s", FormatD(Lookup(c, PacketSize))] in Chosen(Table(c))
  {
    var c := FilledEntries(m, Keys, Defaults);
    FilledWellTyped(m);
    FilledLookup(m, Timeout);
    FilledLookup(m, MinReply);
    FilledLookup(m, PacketSize);
    TableDistinct(c);
    ChosenExactly(Table(c), 1);
    ChosenExactly(Table(c), 3);
    ChosenExactly(Table(c), 5);
  }

  /** `-w` is emitted exactly when the deadline is truthy, and `-I` exactly when the source
      address is set. */
  lemma DeadlineAndSourceOnlyWhenSet(c: map<Key, Value>)
    requires WellTyped(c)
    ensures ["-w", FormatD(Lookup(c, Deadline))] in Chosen(Table(c)) <==> Truthy(Lookup(c, Deadline))
    ensures ["-I", Text(Lookup(c, SourceAddr))] in Chosen(Table(c)) <==> Truthy(Lookup(c, SourceAddr))
  {
    TableDistinct(c);
    ChosenExactly(Table(c), 2);
    ChosenExactly(Table(c), 4);
  }
}
