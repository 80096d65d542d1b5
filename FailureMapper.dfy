/** `getFailedEntities`: from the API's error report to identity => message. */
module FailureMapper {
  import opened Entities

  /** The identity recorded for position `row`. PHP reads a missing offset as `null`
      (with a notice), and `null` used as an array key is the empty string. */
  function IdentityOf(index: IdentityIndex, row: nat): string
  {
    if row < |index| then index[row] else ""
  }

  /** The (position, message) pairs of one message, in the order its positions are listed. */
  function RowWrites(error: (string, seq<nat>)): seq<(nat, string)>
  {
    seq(|error.1|, j requires 0 <= j < |error.1| => (error.1[j], error.0))
  }

  /** Every (position, message) pair of a report, in the order the nested `foreach`
      loops visit them: messages in report order, positions in list order. */
  function Writes(errors: ErrorReport): seq<(nat, string)>
    decreases |errors|
  {
    if errors == [] then []
    else Writes(errors[..|errors| - 1]) + RowWrites(errors[|errors| - 1])
  }

  /** The map obtained by performing `writes` in order, each one overwriting its key. */
  function Apply(index: IdentityIndex, writes: seq<(nat, string)>): FailureReport
    decreases |writes|
  {
    if writes == [] then map[]
    else
      var last := writes[|writes| - 1];
      Apply(index, writes[..|writes| - 1])[IdentityOf(index, last.0) := last.1]
  }

  /** The failure report that `getFailedEntities($errors, $indexedEntities)` builds. */
  function FailureMap(errors: ErrorReport, index: IdentityIndex): FailureReport
  {
    Apply(index, Writes(errors))
  }

  /** The write at position `t` is the last one in `writes` that touches `key`. */
  predicate LastWriteTo(index: IdentityIndex, writes: seq<(nat, string)>, key: string, t: nat)
  {
    && t < |writes|
    && IdentityOf(index, writes[t].0) == key
    && forall u :: t < u < |writes| ==> IdentityOf(index, writes[u].0) != key
  }

  /** Performing writes in order: a key is present exactly when some write touches it,
      and then it holds the message of the last write that does. */
  lemma {:induction false} ApplyLastWriteWins(index: IdentityIndex, writes: seq<(nat, string)>, key: string)
    ensures key in Apply(index, writes) <==> exists t :: 0 <= t < |writes| && IdentityOf(index, writes[t].0) == key
    ensures key in Apply(index, writes) ==>
              exists t: nat :: LastWriteTo(index, writes, key, t) && Apply(index, writes)[key] == writes[t].1
    decreases |writes|
  {
    if writes != [] {
      var n := |writes| - 1;
      var before := writes[..n];
      ApplyLastWriteWins(index, before, key);
      if IdentityOf(index, writes[n].0) == key {
        assert LastWriteTo(index, writes, key, n);
      } else if key in Apply(index, before) {
        var t: nat :| LastWriteTo(index, before, key, t) && Apply(index, before)[key] == before[t].1;
        assert LastWriteTo(index, writes, key, t);
      } else {
        forall t | 0 <= t < |writes| ensures IdentityOf(index, writes[t].0) != key {
          if t < n {
            assert writes[t] == before[t];
          }
        }
      }
    }
  }

  /** The writes are exactly the (position, message) pairs the report lists. */
  lemma {:induction false} WritesAreReportPairs(errors: ErrorReport, row: nat, message: string)
    ensures (row, message) in Writes(errors) <==>
              exists rows :: (message, rows) in errors && row in rows
    decreases |errors|
  {
    if errors != [] {
      var n := |errors| - 1;
      WritesAreReportPairs(errors[..n], row, message);
      assert errors == errors[..n] + [errors[n]];
      if (row, message) in RowWrites(errors[n]) {
        var j :| 0 <= j < |errors[n].1| && RowWrites(errors[n])[j] == (row, message);
        assert errors[n] in errors;
      }
      if row in errors[n].1 && message == errors[n].0 {
        var j :| 0 <= j < |errors[n].1| && errors[n].1[j] == row;
        assert RowWrites(errors[n])[j] == (row, message);
      }
    }
  }

  /** The failure report's keys are exactly the identities of the listed positions. */
  lemma FailureMapKeys(errors: ErrorReport, index: IdentityIndex, key: string)
    ensures key in FailureMap(errors, index) <==>
              exists message, rows, row :: (message, rows) in errors && row in rows && IdentityOf(index, row) == key
  {
    var writes := Writes(errors);
    ApplyLastWriteWins(index, writes, key);
    if key in FailureMap(errors, index) {
      var t :| 0 <= t < |writes| && IdentityOf(index, writes[t].0) == key;
      WritesAreReportPairs(errors, writes[t].0, writes[t].1);
      assert (writes[t].0, writes[t].1) in writes;
    }
    if exists message, rows, row :: (message, rows) in errors && row in rows && IdentityOf(index, row) == key {
      var message, rows, row :| (message, rows) in errors && row in rows && IdentityOf(index, row) == key;
      WritesAreReportPairs(errors, row, message);
      var t :| 0 <= t < |writes| && writes[t] == (row, message);
    }
  }

  /** Performing one more write overwrites one key. */
  lemma ApplySnoc(index: IdentityIndex, writes: seq<(nat, string)>, write: (nat, string))
    ensures Apply(index, writes + [write]) == Apply(index, writes)[IdentityOf(index, write.0) := write.1]
  {
    assert (writes + [write])[..|writes|] == writes;
  }

  /** One more message of the report adds its (position, message) pairs at the end. */
  lemma WritesSnoc(errors: ErrorReport, i: nat)
    requires i < |errors|
    ensures Writes(errors[..i + 1]) == Writes(errors[..i]) + RowWrites(errors[i])
  {
    assert errors[..i + 1][..i] == errors[..i];
  }

  /** One more listed position of a message adds one pair at the end. */
  lemma RowWritesSnoc(message: string, rows: seq<nat>, j: nat)
    requires j < |rows|
    ensures RowWrites((message, rows[..j + 1])) == RowWrites((message, rows[..j])) + [(rows[j], message)]
  {
  }

  /** `getFailedEntities`: nested loops over the report, each listed position writing its
      message under its identity. */
  method FailedEntities(errors: ErrorReport, index: IdentityIndex) returns (failed: FailureReport)
    ensures failed == FailureMap(errors, index)
  {
    failed := map[];
    for i := 0 to |errors|
      invariant failed == Apply(index, Writes(errors[..i]))
    {
      var message, rows := errors[i].0, errors[i].1;
      ghost var before := Writes(errors[..i]);
      assert before + RowWrites((message, rows[..0])) == before by {
        assert RowWrites((message, rows[..0])) == [];
      }
      for j := 0 to |rows|
        invariant failed == Apply(index, before + RowWrites((message, rows[..j])))
      {
        ghost var done := before + RowWrites((message, rows[..j]));
        assert Apply(index, before + RowWrites((message, rows[..j + 1])))
               == Apply(index, done)[IdentityOf(index, rows[j]) := message] by {
          RowWritesSnoc(message, rows, j);
          assert before + RowWrites((message, rows[..j + 1])) == done + [(rows[j], message)];
          ApplySnoc(index, done, (rows[j], message));
        }
        failed := failed[IdentityOf(index, rows[j]) := message];
      }
      assert Apply(index, Writes(errors[..i + 1])) == Apply(index, before + RowWrites((message, rows))) by {
        WritesSnoc(errors, i);
      }
      assert rows[..|rows|] == rows;
    }
    assert errors[..|errors|] == errors;
  }
}
