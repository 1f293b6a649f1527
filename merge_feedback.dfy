/**
 * `scripts/merge_feedback_to_train.py`: turns feedback rows into training rows and merges
 * them into the base training corpus, later rows winning on a (transaction, category) key.
 */
module MergeFeedback {
  import opened Wrappers

  /** A row of a CSV table: column name to cell text; an absent column or empty cell is missing. */
  type Record = map<string, string>

  /** `r.get(key)` (or `r.get(key, "")`): the cell, with "" standing for a missing value. */
  function Cell(r: Record, key: string): string
  {
    if key in r then r[key] else ""
  }

  /** Python's `a or b` on cells: the first non-empty of the two. */
  function OrElse(a: string, b: string): (r: string)
    ensures r != [] <==> a != [] || b != []
    ensures a != [] ==> r == a
    ensures a == [] ==> r == b
  {
    if a != [] then a else b
  }

  /** A row of the training corpus. */
  datatype TrainRow = TrainRow(transaction: string, cleaned: string, category: string)

  /** The label a feedback row carries: the correction, else the predicted category, else the predicted tag. */
  function Label(r: Record): string
  {
    OrElse(OrElse(Cell(r, "corrected_category"), Cell(r, "predicted_category")), Cell(r, "predicted_tag"))
  }

  /**
   * One feedback row as a training row: the raw text (else `transaction`) with the label;
   * dropped (None) when either of the two is missing.
   */
  function RowFromFeedback(r: Record): (t: Option<TrainRow>)
    ensures t.None? <==>
      (Cell(r, "raw") == [] && Cell(r, "transaction") == [])
      || (Cell(r, "corrected_category") == [] && Cell(r, "predicted_category") == [] && Cell(r, "predicted_tag") == [])
    ensures t.Some? ==> t.value.cleaned == Cell(r, "cleaned")
    ensures t.Some? && Cell(r, "raw") != [] ==> t.value.transaction == r["raw"]
    ensures t.Some? && Cell(r, "raw") == [] ==> t.value.transaction == Cell(r, "transaction")
    ensures t.Some? && Cell(r, "corrected_category") != [] ==> t.value.category == r["corrected_category"]
    ensures t.Some? && Cell(r, "corrected_category") == [] && Cell(r, "predicted_category") != [] ==>
      t.value.category == r["predicted_category"]
    ensures t.Some? && Cell(r, "corrected_category") == [] && Cell(r, "predicted_category") == [] ==>
      t.value.category == Cell(r, "predicted_tag")
    ensures t.Some? ==> t.value.category in {Cell(r, "corrected_category"), Cell(r, "predicted_category"), Cell(r, "predicted_tag")}
  {
    var transaction := OrElse(Cell(r, "raw"), Cell(r, "transaction"));
    var corrected := Label(r);
    var cleaned := Cell(r, "cleaned");
    if transaction == [] || corrected == [] then None
    else Some(TrainRow(transaction, cleaned, corrected))
  }

  /** The usable training rows of a feedback table, in table order. */
  function UsableRows(fb: seq<Record>): seq<TrainRow>
  {
    if fb == [] then []
    else
      var prev := UsableRows(fb[..|fb| - 1]);
      match RowFromFeedback(fb[|fb| - 1])
      case None => prev
      case Some(t) => prev + [t]
  }

  /** `feedback_to_train_rows`: the loop over the feedback table. */
  method FeedbackToTrainRows(fb: seq<Record>) returns (out: seq<TrainRow>)
    ensures out == UsableRows(fb)
  {
    out := [];
    for i := 0 to |fb|
      invariant out == UsableRows(fb[..i])
    {
      assert fb[..i + 1][..i] == fb[..i];
      var r := fb[i];
      var transaction := OrElse(Cell(r, "raw"), Cell(r, "transaction"));
      var corrected := OrElse(OrElse(Cell(r, "corrected_category"), Cell(r, "predicted_category")), Cell(r, "predicted_tag"));
      var cleaned := Cell(r, "cleaned");
      if transaction == [] || corrected == [] {
        continue;
      }
      out := out + [TrainRow(transaction, cleaned, corrected)];
    }
    assert fb[..|fb|] == fb;
  }

  /** Every usable row has a transaction and a category, and there are never more rows than feedback rows. */
  lemma {:induction false} UsableRowsWellFormed(fb: seq<Record>)
    ensures |UsableRows(fb)| <= |fb|
    ensures forall i :: 0 <= i < |UsableRows(fb)| ==>
      UsableRows(fb)[i].transaction != [] && UsableRows(fb)[i].category != []
  {
    if fb != [] {
      UsableRowsWellFormed(fb[..|fb| - 1]);
    }
  }

  /** There are no usable rows exactly when every feedback row lacks a transaction or a label. */
  lemma {:induction false} UsableRowsEmpty(fb: seq<Record>)
    ensures UsableRows(fb) == [] <==> forall i :: 0 <= i < |fb| ==> RowFromFeedback(fb[i]).None?
  {
    if fb != [] {
      var init := fb[..|fb| - 1];
      UsableRowsEmpty(init);
      UsableRowsWellFormed(init);
      assert forall i :: 0 <= i < |init| ==> init[i] == fb[i];
    }
  }

  /** Converting a feedback table in two parts gives the rows of the first part followed by those of the second. */
  lemma {:induction false} UsableRowsAppend(a: seq<Record>, b: seq<Record>)
    ensures UsableRows(a + b) == UsableRows(a) + UsableRows(b)
    decreases |b|
  {
    if b == [] {
      assert a + b == a;
    } else {
      var b' := b[..|b| - 1];
      assert (a + b)[..|a + b| - 1] == a + b';
      UsableRowsAppend(a, b');
    }
  }

  // ----- drop_duplicates(subset=["transaction", "category"], keep="last") -----

  /** The de-duplication key of a row. */
  function Key(t: TrainRow): (string, string)
  {
    (t.transaction, t.category)
  }

  function Keys(rows: seq<TrainRow>): set<(string, string)>
  {
    set i | 0 <= i < |rows| :: Key(rows[i])
  }

  /** Row i is the last row of its key. */
  predicate LastOfKey(rows: seq<TrainRow>, i: nat)
    requires i < |rows|
  {
    forall j :: i < j < |rows| ==> Key(rows[j]) != Key(rows[i])
  }

  /** Keeps exactly the rows whose key does not occur again later, in their original order. */
  function DropDuplicatesKeepLast(rows: seq<TrainRow>): seq<TrainRow>
  {
    if rows == [] then []
    else (if Key(rows[0]) in Keys(rows[1..]) then [] else [rows[0]]) + DropDuplicatesKeepLast(rows[1..])
  }

  /** No two rows share a key. */
  predicate UniqueKeys(rows: seq<TrainRow>) {
    forall i, j :: 0 <= i < j < |rows| ==> Key(rows[i]) != Key(rows[j])
  }

  /** a is b with some rows left out, the rest in the same order. */
  predicate SubsequenceOf(a: seq<TrainRow>, b: seq<TrainRow>)
    decreases |b|
  {
    if a == [] then true
    else if b == [] then false
    else (a[0] == b[0] && SubsequenceOf(a[1..], b[1..])) || SubsequenceOf(a, b[1..])
  }

  lemma KeysTail(rows: seq<TrainRow>)
    requires rows != []
    ensures Keys(rows) == {Key(rows[0])} + Keys(rows[1..])
  {
    forall k | k in Keys(rows)
      ensures k in {Key(rows[0])} + Keys(rows[1..])
    {
      var i :| 0 <= i < |rows| && Key(rows[i]) == k;
      if i > 0 {
        assert rows[1..][i - 1] == rows[i];
      }
    }
    forall k | k in Keys(rows[1..])
      ensures k in Keys(rows)
    {
      var i :| 0 <= i < |rows[1..]| && Key(rows[1..][i]) == k;
      assert rows[i + 1] == rows[1..][i];
    }
  }

  /** De-duplication keeps every key that occurs in the table. */
  lemma {:induction false} DropDuplicatesKeys(rows: seq<TrainRow>)
    ensures Keys(DropDuplicatesKeepLast(rows)) == Keys(rows)
  {
    if rows != [] {
      var rest := DropDuplicatesKeepLast(rows[1..]);
      DropDuplicatesKeys(rows[1..]);
      KeysTail(rows);
      if Key(rows[0]) !in Keys(rows[1..]) {
        var out := [rows[0]] + rest;
        assert DropDuplicatesKeepLast(rows) == out;
        assert out[1..] == rest;
        KeysTail(out);
      } else {
        assert DropDuplicatesKeepLast(rows) == rest;
      }
    }
  }

  /** After de-duplication no key occurs twice. */
  lemma {:induction false} DropDuplicatesUnique(rows: seq<TrainRow>)
    ensures UniqueKeys(DropDuplicatesKeepLast(rows))
  {
    if rows != [] {
      var rest := DropDuplicatesKeepLast(rows[1..]);
      DropDuplicatesUnique(rows[1..]);
      if Key(rows[0]) !in Keys(rows[1..]) {
        DropDuplicatesKeys(rows[1..]);
        var out := [rows[0]] + rest;
        forall i, j | 0 <= i < j < |out|
          ensures Key(out[i]) != Key(out[j])
        {
          assert out[j] == rest[j - 1];
          if i == 0 {
            assert Key(rest[j - 1]) in Keys(rest);
          } else {
            assert out[i] == rest[i - 1];
          }
        }
      }
    }
  }

  /** The survivors keep their original relative order. */
  lemma {:induction false} DropDuplicatesOrder(rows: seq<TrainRow>)
    ensures SubsequenceOf(DropDuplicatesKeepLast(rows), rows)
  {
    if rows != [] {
      var rest := DropDuplicatesKeepLast(rows[1..]);
      DropDuplicatesOrder(rows[1..]);
      if Key(rows[0]) in Keys(rows[1..]) {
        assert DropDuplicatesKeepLast(rows) == rest;
        SubsequenceSkip(rest, rows);
      } else {
        var out := [rows[0]] + rest;
        assert DropDuplicatesKeepLast(rows) == out;
        assert out[0] == rows[0] && out[1..] == rest;
      }
    }
  }

  /** Every survivor is the last row of its key in the table. */
  lemma {:induction false} DropDuplicatesKeepsLast(rows: seq<TrainRow>)
    ensures forall k :: 0 <= k < |DropDuplicatesKeepLast(rows)| ==>
      exists i :: 0 <= i < |rows| && DropDuplicatesKeepLast(rows)[k] == rows[i] && LastOfKey(rows, i)
  {
    if rows != [] {
      var tail := rows[1..];
      var rest := DropDuplicatesKeepLast(tail);
      DropDuplicatesKeepsLast(tail);
      var first := Key(rows[0]) !in Keys(tail);
      var out := DropDuplicatesKeepLast(rows);
      assert out == (if first then [rows[0]] else []) + rest;
      forall k | 0 <= k < |DropDuplicatesKeepLast(rows)|
        ensures exists i :: 0 <= i < |rows| && DropDuplicatesKeepLast(rows)[k] == rows[i] && LastOfKey(rows, i)
      {
        if first && k == 0 {
          assert LastOfKey(rows, 0) by {
            forall j | 0 < j < |rows|
              ensures Key(rows[j]) != Key(rows[0])
            {
              assert rows[j] == tail[j - 1];
            }
          }
          assert out[k] == rows[0];
        } else {
          var k' := if first then k - 1 else k;
          assert out[k] == rest[k'];
          var i :| 0 <= i < |tail| && rest[k'] == tail[i] && LastOfKey(tail, i);
          assert rows[i + 1] == tail[i];
          assert LastOfKey(rows, i + 1) by {
            forall j | i + 1 < j < |rows|
              ensures Key(rows[j]) != Key(rows[i + 1])
            {
              assert rows[j] == tail[j - 1];
            }
          }
          assert out[k] == rows[i + 1];
        }
      }
      assert forall k :: 0 <= k < |DropDuplicatesKeepLast(rows)| ==>
      exists i :: 0 <= i < |rows| && DropDuplicatesKeepLast(rows)[k] == rows[i] && LastOfKey(rows, i);
    } else {
      assert DropDuplicatesKeepLast(rows) == [];
    }
  }

  /** Leaving out the first row of b keeps a a subsequence of b. */
  lemma SubsequenceSkip(a: seq<TrainRow>, b: seq<TrainRow>)
    requires b != [] && SubsequenceOf(a, b[1..])
    ensures SubsequenceOf(a, b)
  {
  }

  /** A row that is the last of its key survives de-duplication. */
  lemma {:induction false} LastOfKeySurvives(rows: seq<TrainRow>, i: nat)
    requires i < |rows| && LastOfKey(rows, i)
    ensures rows[i] in DropDuplicatesKeepLast(rows)
  {
    var tail := rows[1..];
    if i == 0 {
      assert Key(rows[0]) !in Keys(tail) by {
        forall j | 0 <= j < |tail|
          ensures Key(tail[j]) != Key(rows[0])
        {
          assert tail[j] == rows[j + 1];
        }
      }
    } else {
      assert LastOfKey(tail, i - 1) by {
        forall j | i - 1 < j < |tail|
          ensures Key(tail[j]) != Key(tail[i - 1])
        {
          assert tail[j] == rows[j + 1];
        }
      }
      LastOfKeySurvives(tail, i - 1);
      assert tail[i - 1] == rows[i];
    }
  }

  /** A table whose keys are already unique is left as it is. */
  lemma {:induction false} UniqueKeysUnchanged(rows: seq<TrainRow>)
    requires UniqueKeys(rows)
    ensures DropDuplicatesKeepLast(rows) == rows
  {
    if rows != [] {
      var tail := rows[1..];
      assert UniqueKeys(tail) by {
        forall i, j | 0 <= i < j < |tail|
          ensures Key(tail[i]) != Key(tail[j])
        {
          assert tail[i] == rows[i + 1] && tail[j] == rows[j + 1];
        }
      }
      UniqueKeysUnchanged(tail);
      assert Key(rows[0]) !in Keys(tail) by {
        forall j | 0 <= j < |tail|
          ensures Key(tail[j]) != Key(rows[0])
        {
          assert tail[j] == rows[j + 1];
        }
      }
      assert rows == [rows[0]] + tail;
    }
  }

  /** De-duplicating twice is the same as de-duplicating once. */
  lemma DropDuplicatesIdempotent(rows: seq<TrainRow>)
    ensures DropDuplicatesKeepLast(DropDuplicatesKeepLast(rows)) == DropDuplicatesKeepLast(rows)
  {
    DropDuplicatesUnique(rows);
    UniqueKeysUnchanged(DropDuplicatesKeepLast(rows));
  }

  /** Two rows for the same transaction with different categories both leave a survivor. */
  lemma DistinctCategoriesSurvive(rows: seq<TrainRow>, i: nat, j: nat)
    requires i < |rows| && j < |rows|
    requires rows[i].transaction == rows[j].transaction && rows[i].category != rows[j].category
    ensures exists a, b ::
      (0 <= a < |DropDuplicatesKeepLast(rows)| && 0 <= b < |DropDuplicatesKeepLast(rows)| && a != b
       && Key(DropDuplicatesKeepLast(rows)[a]) == Key(rows[i]) && Key(DropDuplicatesKeepLast(rows)[b]) == Key(rows[j]))
  {
    DropDuplicatesKeys(rows);
    assert Key(rows[i]) in Keys(rows) && Key(rows[j]) in Keys(rows);
  }

  /** The rows whose key is not in ks, in order. */
  function Without(rows: seq<TrainRow>, ks: set<(string, string)>): seq<TrainRow>
  {
    if rows == [] then []
    else (if Key(rows[0]) in ks then [] else [rows[0]]) + Without(rows[1..], ks)
  }

  lemma {:induction false} WithoutAppend(a: seq<TrainRow>, b: seq<TrainRow>, ks: set<(string, string)>)
    ensures Without(a + b, ks) == Without(a, ks) + Without(b, ks)
  {
    if a == [] {
      assert a + b == b;
    } else {
      assert (a + b)[0] == a[0] && (a + b)[1..] == a[1..] + b;
      WithoutAppend(a[1..], b, ks);
    }
  }

  lemma {:induction false} WithoutTwice(rows: seq<TrainRow>, ks: set<(string, string)>)
    ensures Without(Without(rows, ks), ks) == Without(rows, ks)
  {
    if rows != [] {
      WithoutTwice(rows[1..], ks);
      var h := if Key(rows[0]) in ks then [] else [rows[0]];
      WithoutAppend(h, Without(rows[1..], ks), ks);
      if h != [] {
        assert Without(h, ks) == h by {
          assert h[1..] == [];
        }
      }
    }
  }

  lemma {:induction false} WithoutCovered(rows: seq<TrainRow>, ks: set<(string, string)>)
    requires Keys(rows) <= ks
    ensures Without(rows, ks) == []
  {
    if rows != [] {
      KeysTail(rows);
      WithoutCovered(rows[1..], ks);
    }
  }

  lemma KeysAppend(a: seq<TrainRow>, b: seq<TrainRow>)
    ensures Keys(a + b) == Keys(a) + Keys(b)
  {
    forall k | k in Keys(a + b)
      ensures k in Keys(a) + Keys(b)
    {
      var i :| 0 <= i < |a + b| && Key((a + b)[i]) == k;
      if i >= |a| {
        assert (a + b)[i] == b[i - |a|];
      }
    }
    forall k | k in Keys(a) + Keys(b)
      ensures k in Keys(a + b)
    {
      if k in Keys(a) {
        var i :| 0 <= i < |a| && Key(a[i]) == k;
        assert (a + b)[i] == a[i];
      } else {
        var i :| 0 <= i < |b| && Key(b[i]) == k;
        assert (a + b)[|a| + i] == b[i];
      }
    }
  }

  /**
   * De-duplicating a concatenation: the de-duplicated first part loses every key the second
   * part has, and the de-duplicated second part follows.
   */
  lemma {:induction false} DropDuplicatesAppend(a: seq<TrainRow>, b: seq<TrainRow>)
    ensures DropDuplicatesKeepLast(a + b) == Without(DropDuplicatesKeepLast(a), Keys(b)) + DropDuplicatesKeepLast(b)
  {
    if a == [] {
      assert a + b == b;
    } else {
      var x, tail := a[0], a[1..];
      var kb := Keys(b);
      assert (a + b)[0] == x && (a + b)[1..] == tail + b;
      var h := if Key(x) in Keys(tail) then [] else [x];
      var h' := if Key(x) in Keys(tail + b) then [] else [x];
      assert h' == Without(h, kb) by {
        KeysAppend(tail, b);
        WithoutSingle(x, kb);
      }
      calc {
        DropDuplicatesKeepLast(a + b);
        h' + DropDuplicatesKeepLast(tail + b);
        { DropDuplicatesAppend(tail, b); }
        h' + (Without(DropDuplicatesKeepLast(tail), kb) + DropDuplicatesKeepLast(b));
        (Without(h, kb) + Without(DropDuplicatesKeepLast(tail), kb)) + DropDuplicatesKeepLast(b);
        { WithoutAppend(h, DropDuplicatesKeepLast(tail), kb); }
        Without(h + DropDuplicatesKeepLast(tail), kb) + DropDuplicatesKeepLast(b);
        Without(DropDuplicatesKeepLast(a), kb) + DropDuplicatesKeepLast(b);
      }
    }
  }

  lemma WithoutSingle(x: TrainRow, ks: set<(string, string)>)
    ensures Without([x], ks) == if Key(x) in ks then [] else [x]
  {
    assert [x][1..] == [];
  }

  // ----- main -----

  /** What `main` does: stop because the base corpus is missing, or write the augmented corpus. */
  datatype MergeOutcome = BaseMissing | Written(rows: seq<TrainRow>)

  /**
   * The augmented corpus: the base unchanged when there is no feedback table or no usable
   * feedback row, otherwise the base followed by the feedback rows, de-duplicated keeping the
   * last row of each (transaction, category).
   */
  function Merge(base: Option<seq<TrainRow>>, feedback: Option<seq<Record>>): MergeOutcome
  {
    match base
    case None => BaseMissing
    case Some(train) =>
      match feedback
      case None => Written(train)
      case Some(fb) =>
        var rows := UsableRows(fb);
        if rows == [] then Written(train) else Written(DropDuplicatesKeepLast(train + rows))
  }

  /** `main`. */
  method MergeMain(base: Option<seq<TrainRow>>, feedback: Option<seq<Record>>) returns (outcome: MergeOutcome)
    ensures outcome == Merge(base, feedback)
  {
    if base.None? {
      return BaseMissing;
    }
    var train := base.value;
    if feedback.None? {
      return Written(train);
    }
    var fbRows := FeedbackToTrainRows(feedback.value);
    if |fbRows| == 0 {
      return Written(train);
    }
    var combined := train + fbRows;
    combined := DropDuplicatesKeepLast(combined);
    return Written(combined);
  }

  /** Without a feedback table, or without a usable feedback row, the base corpus is written back as it is, duplicates included. */
  lemma MergeWithoutUsableFeedback(base: seq<TrainRow>, feedback: Option<seq<Record>>)
    requires feedback.Some? ==> forall i :: 0 <= i < |feedback.value| ==> RowFromFeedback(feedback.value[i]).None?
    ensures Merge(Some(base), feedback) == Written(base)
  {
    if feedback.Some? {
      UsableRowsEmpty(feedback.value);
    }
  }

  /** Merging the same feedback into an already augmented corpus changes nothing. */
  lemma MergeIdempotent(base: seq<TrainRow>, fb: seq<Record>, merged: seq<TrainRow>)
    requires Merge(Some(base), Some(fb)) == Written(merged)
    ensures Merge(Some(merged), Some(fb)) == Written(merged)
  {
    var f := UsableRows(fb);
    if f != [] {
      assert merged == DropDuplicatesKeepLast(base + f);
      MergeAgain(base, f);
    }
  }

  /** De-duplicating the augmented corpus followed once more by the same feedback rows gives the augmented corpus back. */
  lemma MergeAgain(base: seq<TrainRow>, f: seq<TrainRow>)
    ensures DropDuplicatesKeepLast(DropDuplicatesKeepLast(base + f) + f) == DropDuplicatesKeepLast(base + f)
  {
    var merged := DropDuplicatesKeepLast(base + f);
    var ks := Keys(f);
    var d := DropDuplicatesKeepLast(base);
    var df := DropDuplicatesKeepLast(f);
    assert merged == Without(d, ks) + df by {
      DropDuplicatesAppend(base, f);
    }
    assert DropDuplicatesKeepLast(merged) == merged by {
      DropDuplicatesUnique(base + f);
      UniqueKeysUnchanged(merged);
    }
    calc {
      DropDuplicatesKeepLast(merged + f);
      { DropDuplicatesAppend(merged, f); }
      Without(merged, ks) + df;
      { WithoutAppend(Without(d, ks), df, ks); }
      Without(Without(d, ks), ks) + Without(df, ks) + df;
      { WithoutTwice(d, ks); DropDuplicatesKeys(f); WithoutCovered(df, ks); }
      Without(d, ks) + [] + df;
      { assert Without(d, ks) + [] == Without(d, ks); }
      merged;
    }
  }

  /**
   * A feedback row that is the last of its key among the feedback rows is in the written
   * corpus, and no other row there has its key: corrections replace base rows of the same
   * transaction and category.
   */
  lemma FeedbackWins(base: seq<TrainRow>, fb: seq<Record>, i: nat)
    requires i < |UsableRows(fb)| && LastOfKey(UsableRows(fb), i)
    ensures Merge(Some(base), Some(fb)).Written?
    ensures UsableRows(fb)[i] in Merge(Some(base), Some(fb)).rows
    ensures forall k ::
      (0 <= k < |Merge(Some(base), Some(fb)).rows| && Key(Merge(Some(base), Some(fb)).rows[k]) == Key(UsableRows(fb)[i])
       ==> Merge(Some(base), Some(fb)).rows[k] == UsableRows(fb)[i])
  {
    var f := UsableRows(fb);
    var rows := base + f;
    assert rows[|base| + i] == f[i];
    assert LastOfKey(rows, |base| + i) by {
      forall j | |base| + i < j < |rows|
        ensures Key(rows[j]) != Key(rows[|base| + i])
      {
        assert rows[j] == f[j - |base|];
      }
    }
    LastOfKeySurvives(rows, |base| + i);
    DropDuplicatesUnique(rows);
    var out := DropDuplicatesKeepLast(rows);
    var m :| 0 <= m < |out| && out[m] == f[i];
    assert forall k :: 0 <= k < |out| && k != m ==> Key(out[k]) != Key(out[m]);
  }
}
