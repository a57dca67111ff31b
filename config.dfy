/** The configuration object shared by `probe`, the argument builders and the parsers: a
    dictionary from option names to JavaScript values, filled with defaults in place. */
module Config {
  import opened Js

  /** The options a configuration can carry (`numeric`, `timeout`, `deadline`, `min_reply`,
      `v6`, `sourceAddr`, `packetSize`, `extra`). */
  datatype Key = Numeric | Timeout | Deadline | MinReply | V6 | SourceAddr | PacketSize | Extra

  /** `o[key]`: a missing key reads as `undefined`. */
  function Lookup(m: map<Key, Value>, key: Key): Value
  {
    if key in m then m[key] else Undefined
  }

  /** The builders' rule for one key: a boolean is kept as given, any other value is kept when
      it is truthy and replaced by the default when it is missing or falsy. */
  function Filled(v: Value, default: Value): (r: Value)
    ensures r == v || r == default
    ensures r == v <==> (v.Bool? || Truthy(v) || v == default)
  {
    if v.Bool? then v else if Truthy(v) then v else default
  }

  /** Filling every key of `keys`, in order, from `defaults`. */
  function FilledEntries(m: map<Key, Value>, keys: seq<Key>, defaults: Key -> Value): map<Key, Value>
    decreases |keys|
  {
    if keys == [] then m
    else
      var last := keys[|keys| - 1];
      var m1 := FilledEntries(m, keys[..|keys| - 1], defaults);
      m1[last := Filled(Lookup(m1, last), defaults(last))]
  }

  /** Filling with the same default twice is filling once. */
  lemma FilledIdempotent(v: Value, default: Value)
    ensures Filled(Filled(v, default), default) == Filled(v, default)
  {
  }

  /** After filling, every listed key holds its filled value (which is what it held before
      when that was a boolean or truthy, and the default otherwise), and every other key,
      present or not, reads as before. */
  lemma {:induction false} FilledEntriesLookup(m: map<Key, Value>, keys: seq<Key>, defaults: Key -> Value, key: Key)
    ensures key in keys ==>
      (key in FilledEntries(m, keys, defaults)
       && Lookup(FilledEntries(m, keys, defaults), key) == Filled(Lookup(m, key), defaults(key)))
    ensures key !in keys ==> Lookup(FilledEntries(m, keys, defaults), key) == Lookup(m, key)
    decreases |keys|
  {
    if keys != [] {
      var init := keys[..|keys| - 1];
      FilledEntriesLookup(m, init, defaults, key);
      if key in init && key != keys[|keys| - 1] {
        assert key in keys;
      }
      if key in keys && key !in init {
        assert keys == init + [keys[|keys| - 1]];
        assert key == keys[|keys| - 1];
      }
      if key in init {
        FilledIdempotent(Lookup(m, key), defaults(key));
      }
    }
  }

  /** A configuration object passed by reference: the builders write their defaults into it,
      and the parser later reads the filled values. */
  class ConfigObject {
    var entries: map<Key, Value>

    constructor (entries0: map<Key, Value>)
      ensures entries == entries0
    {
      entries := entries0;
    }

    function Get(key: Key): Value
      reads this
    {
      Lookup(entries, key)
    }

    /** The loop `for (const key of keys) if (typeof o[key] !== 'boolean') o[key] = o[key] || DEFAULT[key]`. */
    method FillDefaults(keys: seq<Key>, defaults: Key -> Value)
      modifies this
      ensures entries == FilledEntries(old(entries), keys, defaults)
    {
      var i := 0;
      while i < |keys|
        invariant 0 <= i <= |keys|
        invariant entries == FilledEntries(old(entries), keys[..i], defaults)
      {
        var key := keys[i];
        var v := Get(key);
        if !v.Bool? {
          entries := entries[key := if Truthy(v) then v else defaults(key)];
        } else {
          assert entries[key := v] == entries;
        }
        assert keys[..i + 1][..i] == keys[..i];
        i := i + 1;
      }
      assert keys[..i] == keys;
    }
  }
}
