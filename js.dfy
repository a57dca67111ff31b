/** The few JavaScript values, string and array operations that the parser and the
    argument builders rely on, with JavaScript's own semantics written out. */
module Js {

  datatype Option<+T> = None | Some(value: T)

  /** What the source throws. */
  datatype Error =
    | TypeError            // a property read on `undefined` (`tokens[2].slice` on a short line)
    | UnknownState         // `_changeState` with a value outside the STATES enum
    | UnsupportedPlatform  // a factory asked for a platform it does not know
    | NoDeadlineOnWindows  // the Windows builder refuses a `deadline`

  /** Completion of a statement that may throw. */
  datatype Outcome = Pass | Fail(error: Error)

  /** Completion of an expression that may throw. */
  datatype Result<+T> = Ok(value: T) | Err(error: Error)

  /** A dynamically typed JavaScript value, as far as the configuration object and the
      response record use them (non-integral numbers are not modelled). */
  datatype Value =
    | Undefined
    | Null
    | Bool(b: bool)
    | Num(n: int)
    | Str(s: string)
    | Arr(items: seq<string>)

  /** JavaScript truthiness. */
  predicate Truthy(v: Value)
  {
    match v
    case Undefined => false
    case Null => false
    case Bool(b) => b
    case Num(n) => n != 0
    case Str(s) => s != ""
    case Arr(_) => true
  }

  /** Values that `util.format("%d", v)` turns into a number without parsing a string. */
  predicate NumberLike(v: Value)
  {
    !v.Str? && !v.Arr?
  }

  /** `util.format("%d", v)`: `Number(v)` printed in decimal. */
  function FormatD(v: Value): string
    requires NumberLike(v)
  {
    match v
    case Undefined => "NaN"
    case Null => "0"
    case Bool(b) => if b then "1" else "0"
    case Num(n) => Decimal(n)
  }

  /** `String(v)` of a value that is not an array, which is also what `util.format("%s", v)`
      prints for it. */
  function Text(v: Value): string
    requires !v.Arr?
  {
    match v
    case Undefined => "undefined"
    case Null => "null"
    case Bool(b) => if b then "true" else "false"
    case Num(n) => Decimal(n)
    case Str(s) => s
  }

  /** What `xs.concat(v)` appends: the items of an array, any other value as one item
      (turned into text when it becomes a command-line word). */
  function ConcatItems(v: Value): (r: seq<string>)
    ensures v.Arr? ==> r == v.items
    ensures !v.Arr? ==> |r| == 1
  {
    if v.Arr? then v.items else [Text(v)]
  }

  function DigitChar(d: nat): char
    requires d < 10
  {
    "0123456789"[d]
  }

  /** Decimal digits of a natural number, most significant first. */
  function Digits(n: nat): (s: string)
    ensures |s| >= 1
    ensures forall i :: 0 <= i < |s| ==> '0' <= s[i] <= '9'
    ensures n >= 10 ==> s[0] != '0'
  {
    if n < 10 then [DigitChar(n)] else Digits(n / 10) + [DigitChar(n % 10)]
  }

  /** How JavaScript prints an integral number. */
  function Decimal(n: int): string
  {
    if n < 0 then "-" + Digits(-n) else Digits(n)
  }

  /** The decimal texts of the numbers the builders' defaults print. */
  lemma SmallDecimals()
    ensures Decimal(1) == "1" && Decimal(2) == "2" && Decimal(32) == "32" && Decimal(56) == "56"
    ensures Decimal(5000) == "5000"
  {
    assert Digits(3) == "3" && Digits(5) == "5" && Digits(50) == "50" && Digits(500) == "500";
  }

  /** The value of a string of decimal digits. */
  function DigitsValue(s: string): nat
    requires forall i :: 0 <= i < |s| ==> '0' <= s[i] <= '9'
  {
    if s == [] then 0
    else DigitsValue(s[..|s| - 1]) * 10 + (s[|s| - 1] as int - '0' as int)
  }

  lemma DigitCharValue(d: nat)
    requires d < 10
    ensures DigitChar(d) as int - '0' as int == d
  {
  }

  /** Printing a number and reading the digits back gives the number. */
  lemma {:induction false} DigitsRoundTrip(n: nat)
    ensures DigitsValue(Digits(n)) == n
  {
    var s := Digits(n);
    if n < 10 {
      DigitCharValue(n);
      assert s[..|s| - 1] == [];
    } else {
      DigitsRoundTrip(n / 10);
      DigitCharValue(n % 10);
      assert s[..|s| - 1] == Digits(n / 10);
    }
  }

  /** Index of the first `c` in `s`. */
  function IndexOfChar(s: string, c: char): (i: nat)
    requires c in s
    ensures i < |s| && s[i] == c && c !in s[..i]
  {
    if s[0] == c then 0 else 1 + IndexOfChar(s[1..], c)
  }

  /** `s.split(sep)` for a one-character separator. */
  function Split(s: string, sep: char): (parts: seq<string>)
    ensures |parts| >= 1
    ensures forall p <- parts :: sep !in p
    decreases |s|
  {
    if sep !in s then [s]
    else
      var i := IndexOfChar(s, sep);
      [s[..i]] + Split(s[i + 1..], sep)
  }

  /** `parts.join(sep)`. */
  function Join(parts: seq<string>, sep: string): string
  {
    if |parts| == 0 then ""
    else if |parts| == 1 then parts[0]
    else parts[0] + sep + Join(parts[1..], sep)
  }

  /** Splitting and joining again with the same separator restores the string. */
  lemma {:induction false} JoinSplit(s: string, sep: char)
    ensures Join(Split(s, sep), [sep]) == s
    decreases |s|
  {
    if sep in s {
      var i := IndexOfChar(s, sep);
      var rest := Split(s[i + 1..], sep);
      SplitUnfold(s, sep);
      JoinSplit(s[i + 1..], sep);
      assert Join(rest, [sep]) == s[i + 1..];
      JoinCons(s[..i], rest, [sep]);
      assert Join(Split(s, sep), [sep]) == s[..i] + [sep] + s[i + 1..];
      assert s == s[..i] + [sep] + s[i + 1..];
    }
  }

  /** Joining separator-free tokens and splitting again gives the tokens back. */
  lemma {:induction false} SplitJoin(parts: seq<string>, sep: char)
    requires |parts| >= 1
    requires forall p <- parts :: sep !in p
    ensures Split(Join(parts, [sep]), sep) == parts
    decreases |parts|
  {
    if |parts| == 1 {
      SplitSingle(parts[0], sep);
    } else {
      SplitJoin(parts[1..], sep);
      SplitCons(parts[0], sep, Join(parts[1..], [sep]));
      assert parts == [parts[0]] + parts[1..];
    }
  }

  lemma SplitUnfold(s: string, sep: char)
    requires sep in s
    ensures Split(s, sep) == [s[..IndexOfChar(s, sep)]] + Split(s[IndexOfChar(s, sep) + 1..], sep)
  {
  }

  lemma JoinCons(x: string, rest: seq<string>, sep: string)
    requires |rest| >= 1
    ensures Join([x] + rest, sep) == x + sep + Join(rest, sep)
  {
    assert ([x] + rest)[1..] == rest;
  }

  /** A piece free of the separator, followed by the separator, splits off as the first token. */
  lemma SplitCons(a: string, sep: char, b: string)
    requires sep !in a
    ensures Split(a + [sep] + b, sep) == [a] + Split(b, sep)
  {
    var s := a + [sep] + b;
    assert s[|a|] == sep;
    var i := IndexOfChar(s, sep);
    assert s[..|a|] == a;
    assert s[..i] == a;
    assert s[i + 1..] == b;
  }

  /** A string free of the separator is a single token. */
  lemma SplitSingle(a: string, sep: char)
    requires sep !in a
    ensures Split(a, sep) == [a]
  {
  }

  /** `xs.indexOf(x)`: the first position of `x`, or -1. */
  function IndexOf<T(==)>(xs: seq<T>, x: T): (i: int)
    ensures -1 <= i < |xs|
    ensures i == -1 <==> x !in xs
    ensures i >= 0 ==> xs[i] == x && x !in xs[..i]
  {
    if |xs| == 0 then -1
    else if xs[0] == x then 0
    else
      var j := IndexOf(xs[1..], x);
      assert j >= 0 ==> xs[..j + 1] == [xs[0]] + xs[1..][..j];
      if j == -1 then -1 else j + 1
  }

  /** `xs.find(p)`: the first element satisfying `p`. */
  function Find<T>(xs: seq<T>, p: T -> bool): (r: Option<T>)
    ensures r.Some? ==> exists i :: 0 <= i < |xs| && xs[i] == r.value && p(r.value)
                                    && forall j :: 0 <= j < i ==> !p(xs[j])
    ensures r.None? ==> forall x <- xs :: !p(x)
  {
    if |xs| == 0 then None
    else if p(xs[0]) then Some(xs[0])
    else
      var r := Find(xs[1..], p);
      assert r.Some? ==> exists i :: 1 <= i < |xs| && xs[i] == r.value && p(r.value)
                                     && forall j :: 0 <= j < i ==> !p(xs[j]) by {
        if r.Some? {
          var i :| 0 <= i < |xs[1..]| && xs[1..][i] == r.value && p(r.value) && forall j :: 0 <= j < i ==> !p(xs[1..][j]);
          assert forall j :: 1 <= j < i + 1 ==> !p(xs[j]) by {
            forall j | 1 <= j < i + 1 ensures !p(xs[j]) { assert xs[j] == xs[1..][j - 1]; }
          }
        }
      }
      r
  }

  /** `xs.findIndex(p)`: the first position satisfying `p`, or -1. */
  function FindIndex<T>(xs: seq<T>, p: T -> bool): (i: int)
    ensures -1 <= i < |xs|
    ensures i >= 0 ==> p(xs[i]) && forall j :: 0 <= j < i ==> !p(xs[j])
    ensures i == -1 ==> forall j :: 0 <= j < |xs| ==> !p(xs[j])
  {
    if |xs| == 0 then -1
    else if p(xs[0]) then 0
    else
      var i := FindIndex(xs[1..], p);
      assert forall j :: 1 <= j < |xs| ==> xs[j] == xs[1..][j - 1];
      if i == -1 then -1 else i + 1
  }

  /** Looking up with `indexOf` the element `find` returns gives the first position
      satisfying `p`; `find` returns nothing exactly when there is no such position. */
  lemma FindThenIndexOf<T>(xs: seq<T>, p: T -> bool)
    ensures Find(xs, p).None? <==> FindIndex(xs, p) == -1
    ensures Find(xs, p).Some? ==> IndexOf(xs, Find(xs, p).value) == FindIndex(xs, p)
  {
    var k := FindIndex(xs, p);
    if Find(xs, p).Some? {
      var v := Find(xs, p).value;
      var i0 :| 0 <= i0 < |xs| && xs[i0] == v && p(v) && forall j :: 0 <= j < i0 ==> !p(xs[j]);
      assert k == i0;
    }
  }

  /** `xs.map(f)`. */
  function Map<T, U>(xs: seq<T>, f: T -> U): (ys: seq<U>)
    ensures |ys| == |xs| && forall i :: 0 <= i < |xs| ==> ys[i] == f(xs[i])
  {
    if |xs| == 0 then [] else [f(xs[0])] + Map(xs[1..], f)
  }

  /** `xs.filter(p)`. */
  function Filter<T>(xs: seq<T>, p: T -> bool): seq<T>
  {
    if |xs| == 0 then []
    else (if p(xs[0]) then [xs[0]] else []) + Filter(xs[1..], p)
  }

  lemma {:induction false} FilterAppend<T>(xs: seq<T>, ys: seq<T>, p: T -> bool)
    ensures Filter(xs + ys, p) == Filter(xs, p) + Filter(ys, p)
  {
    if |xs| > 0 {
      assert (xs + ys)[1..] == xs[1..] + ys;
      FilterAppend(xs[1..], ys, p);
    } else {
      assert xs + ys == ys;
    }
  }

  /** Every element the filter keeps passes the test and comes from the list. */
  lemma {:induction false} FilterElement<T>(xs: seq<T>, p: T -> bool, k: nat)
    requires k < |Filter(xs, p)|
    ensures p(Filter(xs, p)[k]) && Filter(xs, p)[k] in xs
    decreases |xs|
  {
    if p(xs[0]) && k == 0 {
    } else {
      var k' := if p(xs[0]) then k - 1 else k;
      assert Filter(xs, p)[k] == Filter(xs[1..], p)[k'];
      FilterElement(xs[1..], p, k');
      assert Filter(xs[1..], p)[k'] in xs[1..];
    }
  }

  /** Filtering keeps a list whose every element passes. */
  lemma {:induction false} FilterAllOf<T>(xs: seq<T>, p: T -> bool)
    requires forall k :: 0 <= k < |xs| ==> p(xs[k])
    ensures Filter(xs, p) == xs
  {
    if |xs| > 0 {
      FilterAllOf(xs[1..], p);
      assert [xs[0]] + xs[1..] == xs;
    }
  }

  /** Filtering empties a list whose every element fails. */
  lemma {:induction false} FilterNoneOf<T>(xs: seq<T>, p: T -> bool)
    requires forall k :: 0 <= k < |xs| ==> !p(xs[k])
    ensures Filter(xs, p) == []
  {
    if |xs| > 0 {
      FilterNoneOf(xs[1..], p);
    }
  }

  /** A relative index of `slice`: negative counts from the end, then clamped. */
  function ClampIndex(i: int, len: nat): (r: nat)
    ensures r <= len
  {
    if i < 0 then (if len + i < 0 then 0 else len + i)
    else if i > len then len
    else i
  }

  /** `xs.slice(start, end)`. */
  function Slice<T>(xs: seq<T>, start: int, end: int): seq<T>
  {
    var a := ClampIndex(start, |xs|);
    var b := ClampIndex(end, |xs|);
    if a < b then xs[a..b] else []
  }

  /** `sub` occurs in `s` at position `i`. */
  predicate OccursAt(s: string, sub: string, i: nat)
  {
    i + |sub| <= |s| && s[i..i + |sub|] == sub
  }

  /** `s.indexOf(sub) >= 0`. */
  predicate Contains(s: string, sub: string)
  {
    exists i: nat | i <= |s| :: OccursAt(s, sub, i)
  }
}
