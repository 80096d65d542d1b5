/** The per-bulk loop of the remote-API path: chunk, index each bulk, send it, and fold
    every structured failure into one running failure report with `array_merge`. */
module ImportRun {
  import opened Wrappers
  import opened Entities
  import opened Chunker
  import opened IdentityIndexer
  import opened FailureMapper

  /** How the remote import call for one bulk ended. */
  datatype ImportOutcome =
    | Imported                                // the call returned normally
    | StructuredFailure(errors: ErrorReport)  // it threw, and its message decodes as an error report
    | OpaqueFailure(message: string)          // it threw, and its message is not an error report

  /** The state of a run: the accumulated failure report and the messages of failures that
      could not be attributed to entities (printed as they occur), or a fatal stop, which
      `getFailedEntities` raises when handed the `null` index of an unsupported kind. */
  datatype RunResult =
    | Report(failed: FailureReport, unattributed: seq<string>)
    | Fatal(unattributed: seq<string>)

  /** `array_merge($earlier, $later)` on string keys: a right-biased union. */
  function ArrayMerge(earlier: FailureReport, later: FailureReport): (merged: FailureReport)
    ensures merged.Keys == earlier.Keys + later.Keys
    ensures forall k :: k in later ==> merged[k] == later[k]
    ensures forall k :: k in earlier && k !in later ==> merged[k] == earlier[k]
  {
    earlier + later
  }

  /** The failure entries one bulk contributes when its index exists; none otherwise. */
  function BulkFailures(bulk: Bulk, kind: string, outcome: ImportOutcome): FailureReport
  {
    match (outcome, IndexFor(bulk, kind))
    case (StructuredFailure(errors), Some(index)) => FailureMap(errors, index)
    case _ => map[]
  }

  /** One iteration of the per-bulk loop. */
  function Step(state: RunResult, bulk: Bulk, kind: string, outcome: ImportOutcome): RunResult
  {
    match state
    case Fatal(_) => state
    case Report(failed, unattributed) =>
      match outcome
      case Imported => state
      case OpaqueFailure(message) => Report(failed, unattributed + [message])
      case StructuredFailure(errors) =>
        match IndexFor(bulk, kind)
        case None => Fatal(unattributed)
        case Some(index) => Report(ArrayMerge(failed, FailureMap(errors, index)), unattributed)
  }

  /** The state after the loop has handled every bulk, in order. */
  function Reconcile(bulks: seq<Bulk>, kind: string, outcomes: seq<ImportOutcome>): RunResult
    requires |outcomes| == |bulks|
    decreases |bulks|
  {
    if bulks == [] then Report(map[], [])
    else
      var n := |bulks| - 1;
      Step(Reconcile(bulks[..n], kind, outcomes[..n]), bulks[n], kind, outcomes[n])
  }

  /** A run stops fatally exactly when the kind has no identity field and some bulk
      failed with a structured error report. */
  lemma {:induction false} ReconcileFatal(bulks: seq<Bulk>, kind: string, outcomes: seq<ImportOutcome>)
    requires |outcomes| == |bulks|
    ensures Reconcile(bulks, kind, outcomes).Fatal? <==>
              IdentityField(kind).None? && exists i :: 0 <= i < |outcomes| && outcomes[i].StructuredFailure?
    decreases |bulks|
  {
    if bulks != [] {
      var n := |bulks| - 1;
      ReconcileFatal(bulks[..n], kind, outcomes[..n]);
      if exists i :: 0 <= i < n && outcomes[..n][i].StructuredFailure? {
        var i :| 0 <= i < n && outcomes[..n][i].StructuredFailure?;
        assert outcomes[i].StructuredFailure?;
      }
      if exists i :: 0 <= i < |outcomes| && outcomes[i].StructuredFailure? {
        var i :| 0 <= i < |outcomes| && outcomes[i].StructuredFailure?;
        if i < n {
          assert outcomes[..n][i].StructuredFailure?;
        }
      }
    }
  }

  /** The failure report each bulk contributes, bulk by bulk. */
  function Contributions(bulks: seq<Bulk>, kind: string, outcomes: seq<ImportOutcome>): seq<FailureReport>
    requires |outcomes| == |bulks|
  {
    seq(|bulks|, i requires 0 <= i < |bulks| => BulkFailures(bulks[i], kind, outcomes[i]))
  }

  /** Reports merged left to right with `array_merge`. */
  function MergeAll(reports: seq<FailureReport>): FailureReport
    decreases |reports|
  {
    if reports == [] then map[]
    else ArrayMerge(MergeAll(reports[..|reports| - 1]), reports[|reports| - 1])
  }

  /** The report `reports[i]` is the last one that holds `key`. */
  predicate LastReportWith(reports: seq<FailureReport>, key: string, i: nat)
  {
    && i < |reports|
    && key in reports[i]
    && forall j :: i < j < |reports| ==> key !in reports[j]
  }

  /** Merging left to right: a key is present iff some report holds it, and then it has
      the value from the last report that holds it. */
  lemma {:induction false} MergeAllLastWins(reports: seq<FailureReport>, key: string)
    ensures key in MergeAll(reports) <==> exists i :: 0 <= i < |reports| && key in reports[i]
    ensures key in MergeAll(reports) ==>
              exists i: nat :: LastReportWith(reports, key, i) && MergeAll(reports)[key] == reports[i][key]
    decreases |reports|
  {
    if reports != [] {
      var n := |reports| - 1;
      var before := reports[..n];
      MergeAllLastWins(before, key);
      if key in reports[n] {
        assert LastReportWith(reports, key, n);
      } else if key in MergeAll(before) {
        var i: nat :| LastReportWith(before, key, i) && MergeAll(before)[key] == before[i][key];
        assert LastReportWith(reports, key, i);
      } else {
        forall i | 0 <= i < |reports| ensures key !in reports[i] {
          if i < n {
            assert reports[i] == before[i];
          }
        }
      }
    }
  }

  /** A run that did not stop fatally has merged every bulk's contribution, in order. */
  lemma {:induction false} ReconcileMergesBulks(bulks: seq<Bulk>, kind: string, outcomes: seq<ImportOutcome>)
    requires |outcomes| == |bulks|
    requires Reconcile(bulks, kind, outcomes).Report?
    ensures Reconcile(bulks, kind, outcomes).failed == MergeAll(Contributions(bulks, kind, outcomes))
    decreases |bulks|
  {
    if bulks != [] {
      var n := |bulks| - 1;
      ReconcileMergesBulks(bulks[..n], kind, outcomes[..n]);
      assert Contributions(bulks, kind, outcomes)[..n] == Contributions(bulks[..n], kind, outcomes[..n]);
    }
  }

  /** Across bulks, later failures overwrite earlier ones: an identity is reported exactly
      when some bulk reported it, and then with the message of the LAST bulk that did. */
  lemma ReconcileLastBulkWins(bulks: seq<Bulk>, kind: string, outcomes: seq<ImportOutcome>, key: string)
    requires |outcomes| == |bulks|
    requires Reconcile(bulks, kind, outcomes).Report?
    ensures key in Reconcile(bulks, kind, outcomes).failed <==>
              exists i :: 0 <= i < |bulks| && key in BulkFailures(bulks[i], kind, outcomes[i])
    ensures key in Reconcile(bulks, kind, outcomes).failed ==>
              exists i: nat :: && LastReportWith(Contributions(bulks, kind, outcomes), key, i)
                               && Reconcile(bulks, kind, outcomes).failed[key] == BulkFailures(bulks[i], kind, outcomes[i])[key]
  {
    var reports := Contributions(bulks, kind, outcomes);
    ReconcileMergesBulks(bulks, kind, outcomes);
    MergeAllLastWins(reports, key);
    if exists i :: 0 <= i < |bulks| && key in BulkFailures(bulks[i], kind, outcomes[i]) {
      var i :| 0 <= i < |bulks| && key in BulkFailures(bulks[i], kind, outcomes[i]);
      assert key in reports[i];
    }
  }

  /** Once fatal, a run stays fatal whatever the remaining bulks do. */
  lemma {:induction false} FatalIsFinal(bulks: seq<Bulk>, kind: string, outcomes: seq<ImportOutcome>, i: nat)
    requires |outcomes| == |bulks| && i <= |bulks|
    requires Reconcile(bulks[..i], kind, outcomes[..i]).Fatal?
    ensures Reconcile(bulks, kind, outcomes) == Reconcile(bulks[..i], kind, outcomes[..i])
    decreases |bulks| - i
  {
    if i < |bulks| {
      assert bulks[..i + 1][..i] == bulks[..i] && outcomes[..i + 1][..i] == outcomes[..i];
      FatalIsFinal(bulks, kind, outcomes, i + 1);
    } else {
      assert bulks[..i] == bulks && outcomes[..i] == outcomes;
    }
  }

  /** Handling one more bulk is one more `Step`. */
  lemma ReconcileStep(bulks: seq<Bulk>, kind: string, outcomes: seq<ImportOutcome>, i: nat)
    requires |outcomes| == |bulks| && i < |bulks|
    ensures Reconcile(bulks[..i + 1], kind, outcomes[..i + 1])
            == Step(Reconcile(bulks[..i], kind, outcomes[..i]), bulks[i], kind, outcomes[i])
  {
    assert bulks[..i + 1][..i] == bulks[..i] && outcomes[..i + 1][..i] == outcomes[..i];
  }

  /** Lines 217-250 of the benchmark: chunk the generated rows, then for every bulk build
      its index, send it, and reconcile the way the call ended. */
  method ReconcileImport(entities: seq<Row>, maxSize: nat, kind: string, outcomes: seq<ImportOutcome>)
    returns (result: RunResult)
    requires |outcomes| == |Chunk(entities, maxSize)|
    ensures result == Reconcile(Chunk(entities, maxSize), kind, outcomes)
  {
    var bulks := Chunk(entities, maxSize);
    var failed: FailureReport := map[];
    var unattributed: seq<string> := [];
    for i := 0 to |bulks|
      invariant Reconcile(bulks[..i], kind, outcomes[..i]) == Report(failed, unattributed)
    {
      ReconcileStep(bulks, kind, outcomes, i);
      var index := IndexEntities(bulks[i], kind);
      match outcomes[i] {
        case Imported =>
        case OpaqueFailure(message) =>
          unattributed := unattributed + [message];
        case StructuredFailure(errors) =>
          if index.None? {
            result := Fatal(unattributed);
            FatalIsFinal(bulks, kind, outcomes, i + 1);
            return;
          }
          var bulkFailed := FailedEntities(errors, index.value);
          failed := ArrayMerge(failed, bulkFailed);
      }
    }
    assert bulks[..|bulks|] == bulks && outcomes[..|bulks|] == outcomes;
    result := Report(failed, unattributed);
  }
}
