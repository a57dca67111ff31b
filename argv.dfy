/** The shape both argument builders share: options are emitted in a fixed order, each as its
    flag followed by its formatted values, and only when its condition holds. */
module Argv {
  /** A row of a builder's option table: whether the option is emitted, and its words (the
      flag, then its values). */
  datatype Row = Row(on: bool, words: seq<string>)

  /** The words one row contributes. */
  function RowWords(row: Row): seq<string>
  {
    if row.on then row.words else []
  }

  /** A conditional append adds the row's words. */
  lemma AppendWhen(before: seq<string>, row: Row, after: seq<string>)
    requires row.on ==> after == before + row.words
    requires !row.on ==> after == before
    ensures after == before + RowWords(row)
  {
    if !row.on {
      assert before + [] == before;
    }
  }

  /** The words of a table: those of its switched-on rows, in table order. */
  function TableWords(table: seq<Row>): seq<string>
  {
    if table == [] then [] else TableWords(table[..|table| - 1]) + RowWords(table[|table| - 1])
  }

  /** The options of a table that are switched on, in table order. */
  function Chosen(table: seq<Row>): (r: seq<seq<string>>)
    ensures |r| <= |table|
    ensures forall w <- r :: exists i :: 0 <= i < |table| && table[i].on && table[i].words == w
    ensures forall i :: 0 <= i < |table| && table[i].on ==> table[i].words in r
  {
    if table == [] then []
    else Chosen(table[..|table| - 1]) + (if table[|table| - 1].on then [table[|table| - 1].words] else [])
  }

  function Concat(xs: seq<seq<string>>): seq<string>
  {
    if xs == [] then [] else Concat(xs[..|xs| - 1]) + xs[|xs| - 1]
  }

  /** Every row has a flag and no two rows share one. */
  predicate DistinctFlags(table: seq<Row>)
  {
    && (forall i :: 0 <= i < |table| ==> |table[i].words| >= 1)
    && (forall i, j :: 0 <= i < j < |table| ==> table[i].words[0] != table[j].words[0])
  }

  /** A table whose flags are `-` and one letter each, the letters all different, has
      distinct flags. */
  lemma DistinctByLetter(table: seq<Row>, letters: string)
    requires |table| == |letters|
    requires forall k :: 0 <= k < |table| ==> |table[k].words| >= 1 && table[k].words[0] == ['-', letters[k]]
    requires forall i, j :: 0 <= i < j < |letters| ==> letters[i] != letters[j]
    ensures DistinctFlags(table)
  {
    forall i, j | 0 <= i < j < |table|
      ensures table[i].words[0] != table[j].words[0]
    {
      assert table[i].words[0][1] == letters[i] && table[j].words[0][1] == letters[j];
    }
  }

  /** The words of a table are the chosen options laid end to end. */
  lemma {:induction false} TableWordsChosen(table: seq<Row>)
    ensures TableWords(table) == Concat(Chosen(table))
    decreases |table|
  {
    if table != [] {
      var init := table[..|table| - 1];
      var last := table[|table| - 1];
      TableWordsChosen(init);
      if last.on {
        var cs := Chosen(init) + [last.words];
        assert Chosen(table) == cs;
        assert cs[..|cs| - 1] == Chosen(init);
      } else {
        assert Chosen(table) == Chosen(init) + [];
        assert Chosen(init) + [] == Chosen(init);
        assert TableWords(table) == TableWords(init) + [];
      }
    }
  }

  /** The words of a six-row table, row by row. */
  lemma TableWordsOfSix(r0: Row, r1: Row, r2: Row, r3: Row, r4: Row, r5: Row)
    ensures TableWords([r0, r1, r2, r3, r4, r5])
      == RowWords(r0) + RowWords(r1) + RowWords(r2) + RowWords(r3) + RowWords(r4) + RowWords(r5)
  {
    var t1, t2, t3, t4, t5 := [r0], [r0, r1], [r0, r1, r2], [r0, r1, r2, r3], [r0, r1, r2, r3, r4];
    var t6 := [r0, r1, r2, r3, r4, r5];
    assert t1[..0] == [] && t2[..1] == t1 && t3[..2] == t2 && t4[..3] == t3 && t5[..4] == t4 && t6[..5] == t5;
    assert TableWords(t1) == [] + RowWords(r0) == RowWords(r0);
    assert TableWords(t2) == TableWords(t1) + RowWords(r1);
    assert TableWords(t3) == TableWords(t2) + RowWords(r2);
    assert TableWords(t4) == TableWords(t3) + RowWords(r3);
    assert TableWords(t5) == TableWords(t4) + RowWords(r4);
    assert TableWords(t6) == TableWords(t5) + RowWords(r5);
  }

  /** A row's option is emitted exactly when the row is switched on: with distinct flags no
      other row can stand in for it. */
  lemma {:induction false} ChosenExactly(table: seq<Row>, i: nat)
    requires i < |table| && DistinctFlags(table)
    ensures table[i].words in Chosen(table) <==> table[i].on
    decreases |table|
  {
    var n := |table| - 1;
    var init := table[..n];
    var last := table[n];
    assert DistinctFlags(init) by {
      forall a | 0 <= a < |init|
        ensures |init[a].words| >= 1
      {
        assert init[a] == table[a];
      }
      forall a, b | 0 <= a < b < |init|
        ensures init[a].words[0] != init[b].words[0]
      {
        assert init[a] == table[a] && init[b] == table[b];
      }
    }
    var tail: seq<seq<string>> := if last.on then [last.words] else [];
    assert Chosen(table) == Chosen(init) + tail;
    if i == n {
      assert forall k :: 0 <= k < |init| ==> init[k].words != last.words by {
        forall k | 0 <= k < |init|
          ensures init[k].words != last.words
        {
          assert init[k] == table[k];
          assert init[k].words[0] != last.words[0];
        }
      }
      ChosenFrom(init);
    } else {
      ChosenExactly(init, i);
      assert init[i] == table[i];
      assert table[i].words[0] != last.words[0];
    }
  }

  /** Every chosen option comes from some row of the table. */
  lemma {:induction false} ChosenFrom(table: seq<Row>)
    ensures forall w :: w in Chosen(table) ==> exists k :: 0 <= k < |table| && table[k].words == w
    decreases |table|
  {
    if table != [] {
      var n := |table| - 1;
      var init := table[..n];
      ChosenFrom(init);
      forall w | w in Chosen(table)
        ensures exists k :: 0 <= k < |table| && table[k].words == w
      {
        if w in Chosen(init) {
          var k :| 0 <= k < |init| && init[k].words == w;
          assert table[k].words == w;
        } else {
          assert table[n].words == w;
        }
      }
    }
  }
}
