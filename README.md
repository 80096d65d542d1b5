# Bulk-import reconciliation, modelled in Dafny

The ApiImport benchmark script generates synthetic catalogue entities (products,
attributes, categories, ...), sends them to the import API in bulks, and reports which
entities failed and why. The API reports failures by in-bulk row position, so the script
carries three small helpers that turn those positions back into readable identities:

- **Chunker** (`getBulksOfEntities`): splits the generated rows into bulks of at most
  `NUM_ROWS_BY_CALL` rows, or sends them as one bulk when that limit is `false`.
  Modelled in `Chunker.dfy` as `Chunk`, with the limit as a parameter `maxSize`, where 0
  stands for `false`, and PHP's `array_chunk` as `ArrayChunk`.
- **Identity indexer** (`getIndexedEntities`): picks the identity field from the entity
  kind (`catalog_product` → `sku`, `attributes` → `attribute_id`,
  `catalog_category` → `name`, anything else → no index). It labels each row with its
  identity, or with `"Associated to previous "` followed by the last identity seen.
  Modelled in `IdentityIndexer.dfy`: the loop is the method `IndexEntities`, and its
  specification is the function `Index`, defined position by position through
  `CarriedIdentity`.
- **Failure mapper** (`getFailedEntities`): walks the decoded error report
  (message → failed positions) and writes `identity => message`; the last write wins.
  Modelled in `FailureMapper.dfy`: the nested loops are the method `FailedEntities`, and
  its specification is `FailureMap`, the in-order application of the report's
  (position, message) pairs (`Writes`).
- **Per-bulk loop** (remote-API path): indexes every bulk, sends it, and merges each
  bulk's failure report into a running one with `array_merge`. Modelled in
  `ImportRun.dfy`. The loop is `ReconcileImport` and its specification is the fold
  `Reconcile`. How each remote call ended is an input, `ImportOutcome`.

`Examples.dfy` works a few concrete cases through the model. `Wrappers.dfy` holds
`Option` (PHP's `null` result), and `Entities.dfy` holds the shared types: a row is
`map<string, string>`, a bulk is `seq<Row>`, an index is `seq<string>` over the positions,
and an error report is a `seq` of (message, positions) pairs in the report's own order.

Behaviour worth noting (the runtime assumed here is stated under "## Left out"):
- An empty batch goes out as ONE empty bulk, not as zero bulks: the single-bulk branch at
  tests/benchmark_import_api.php:30-31 is taken when the count is 0.
- A failed position that is missing from the index does not stop the mapping, as long as
  the notice is not turned into an exception. PHP reads the missing offset as `null` with
  a notice (a warning on PHP 8), and `null` as an array key is `""`. So
  `IdentityOf` gives `""` and the message is filed under the empty identity.
- PHP's `empty()` also treats the string `"0"` as empty. So a row whose identity field is
  `"0"` is labelled as a continuation row (`PhpEmpty`).
- An unsupported kind is harmless until a bulk fails with a structured report. At that
  point the script passes `null` to the `array` parameter of `getFailedEntities`, which
  raises a type error. The call runs inside the `catch` block itself (lines 235-246), so
  no handler encloses it and the run ends there (`RunResult.Fatal`).

## Model

| member | source | states |
|---|---|---|
| `Chunker.ArrayChunk` | tests/benchmark_import_api.php:33 | the slices concatenate back to the input; each slice holds 1..size elements; all but the last hold exactly size; the slice count k satisfies (k-1)·size < n ≤ k·size, i.e. k = ⌈n/size⌉; an empty input gives no slices |
| `Chunker.Chunk` | tests/benchmark_import_api.php:27-37 | with the limit unset (0) or not exceeded, exactly one bulk equal to the input, including for an empty input; always at least one bulk; the bulks concatenate back to the input in order; over the limit, every bulk but the last has exactly the limit, the last has 1..limit rows, and there are ⌈n/limit⌉ bulks |
| `IdentityIndexer.IndexEntities` | tests/benchmark_import_api.php:50-80 | no index exactly for kinds other than `catalog_product`, `attributes`, `catalog_category`; otherwise exactly one entry per row position, and the entry at i is the row's own identity when present and non-empty, else the fallback prefix followed by the carried identity; the single-pass loop equals the position-wise specification `Index` |
| `IdentityIndexer.CarriedIdentityIsNearest` | tests/benchmark_import_api.php:69-76 | the identity carried to position i is that of the nearest earlier row with its own identity; continuation rows in between never change it |
| `IdentityIndexer.CarriedIdentityInitial` | tests/benchmark_import_api.php:69 | with no earlier row carrying an identity, the carried identity is the initial "" |
| `FailureMapper.FailedEntities` | tests/benchmark_import_api.php:90-100 | the nested loops build exactly `FailureMap`: the report's (position, message) pairs applied in report order, each overwriting its identity's entry |
| `FailureMapper.ApplyLastWriteWins` | tests/benchmark_import_api.php:93-97 | after the writes, an identity is present iff some write targets it, and then it holds the message of the LAST write that targets it |
| `FailureMapper.WritesAreReportPairs` | tests/benchmark_import_api.php:93-94 | the writes are exactly the (position, message) pairs the report lists |
| `FailureMapper.FailureMapKeys` | tests/benchmark_import_api.php:92-99 | the failure report's keys are exactly the identities of the positions listed under some message (so an empty report gives an empty map) |
| `ImportRun.ArrayMerge` | tests/benchmark_import_api.php:239-242 | right-biased union: keys are the union, entries of the later report win, every other earlier entry is unchanged |
| `ImportRun.MergeAllLastWins` | tests/benchmark_import_api.php:239-242 | merging reports left to right: an identity is present iff some report holds it, and then it has the value from the last report that holds it |
| `ImportRun.ReconcileMergesBulks` | tests/benchmark_import_api.php:220-247 | a run that did not stop fatally holds exactly the in-order merge of every bulk's own failure report |
| `ImportRun.ReconcileLastBulkWins` | tests/benchmark_import_api.php:215-247 | at the end of a run, an identity is reported iff some bulk's failure report has it, and it carries the message from the last bulk that reported it |
| `ImportRun.ReconcileFatal` | tests/benchmark_import_api.php:222-242 | a run ends fatally iff the kind has no identity field and at least one bulk failed with a structured report |
| `ImportRun.FatalIsFinal` | tests/benchmark_import_api.php:239-242 | once the run has ended fatally, later bulks change nothing |
| `ImportRun.ReconcileImport` | tests/benchmark_import_api.php:217-247 | the per-bulk loop over the chunked rows equals the fold `Reconcile` of one step per bulk: opaque failures are collected in order, structured ones are mapped and merged |
| `Examples.TwentyThreeRowsByTen` | tests/benchmark_import_api.php:32-33 | 23 rows with a limit of 10 give bulks of 10, 10 and 3 rows |
| `Examples.EmptyBatchIsOneBulk` | tests/benchmark_import_api.php:30-31 | an empty batch gives one empty bulk |
| `Examples.ContinuationRowLabel` | tests/benchmark_import_api.php:68-77 | products [sku A1, no sku, sku A2] are indexed as A1, "Associated to previous A1", A2 |
| `Examples.InvalidPriceReport` | tests/benchmark_import_api.php:92-97 | the report {"Invalid price": [1, 2]} over that index gives one entry for each of the two identities |

## Left out

- SOAP client creation, login and `endSession` (lines 127-148, 282-284): network I/O.
- The remote `import.*` calls and the in-process import model (lines 223-234, 254-259):
  foreign code. Their result is the input `ImportOutcome`, one per bulk.
- The PHP runtime: the model assumes PHP 7.x, and a Magento error handler that is
  not in developer mode. On PHP 5, passing `null` to the `array` parameter is a recoverable
  error; outside developer mode, Magento's handler logs it and the run goes on. The bulk's
  failures would then be filed under `""` instead of the run ending as `RunResult.Fatal`.
  In developer mode, the handler turns the missing-offset notice (a warning on PHP 8) in `getFailedEntities` into
  an exception. That exception escapes from inside the catch block and ends the script;
  `IdentityOf` does not model this.
- On PHP 8, an unstructured failure's message that holds a `%` directive (such as
  "discount 100%") makes the `printf` at line 244 throw, because the message is used as
  the format string. The throw comes from inside the catch block, so the run ends there.
  `OpaqueFailure` always lets the run go on, and `ReconcileFatal` does not count this way of
  ending. On PHP 7.x, `printf` only warns and the run goes on, as modelled.
- A thrown message that `json_decode` turns into a non-null scalar (such as `"42"` or
  `"true"`): it passes the check at line 238 and then fails the `array` type hint of
  `getFailedEntities`. `ImportOutcome` has no variant for it.
- Deciding whether a thrown message is a structured report by `json_decode` (lines 236-238):
  a library call. The report arrives already decoded, as `StructuredFailure`.
- The entity generators `generateRandom…` (line 208): foreign code. The rows are an input.
- The in-process path (lines 251-267): it indexes the whole batch and maps failures once,
  without chunking or merging. It uses the same `IndexEntities` and `FailedEntities`.
- `printFailedEntities` and all progress and statistics output (lines 109-114, 207-211,
  268-277): console output and floating-point timing. Messages of unstructured failures
  (line 244) are kept as the list `unattributed` instead of being printed.
- ImportRun.ArrayMerge: does not model PHP's renumbering of integer keys. An identity that is
  a decimal numeral becomes an integer key, and `array_merge` appends such keys instead of
  overwriting them. The model treats all identities as string keys.
- Row values are strings; an integer or `null` field value is represented by its string
  form, where `null` is treated as a missing field. The rows are assumed to be a list,
  with positions 0..n-1.
- The customer kind has no identity field. The source marks it as a TODO (line 52), and
  the model gives it no index, as the source does.
