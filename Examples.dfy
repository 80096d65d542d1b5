/** Concrete cases of the reconciliation helpers, worked through the model. */
module Examples {
  import opened Wrappers
  import opened Entities
  import opened Chunker
  import opened IdentityIndexer
  import opened FailureMapper

  /** 23 rows with a limit of 10 go out as bulks of 10, 10 and 3 rows. */
  lemma {:induction false} TwentyThreeRowsByTen<T>(rows: seq<T>)
    requires |rows| == 23
    ensures |Chunk(rows, 10)| == 3
    ensures |Chunk(rows, 10)[0]| == 10 && |Chunk(rows, 10)[1]| == 10 && |Chunk(rows, 10)[2]| == 3
  {
    var tail := ArrayChunk(rows[10..], 10);
    var last := ArrayChunk(rows[20..], 10);
    assert rows[10..][10..] == rows[20..];
    assert last == [rows[20..]];
    assert tail == [rows[10..][..10]] + last;
    assert Chunk(rows, 10) == [rows[..10]] + tail;
  }

  /** An empty batch is still sent as one (empty) bulk. */
  lemma EmptyBatchIsOneBulk(maxSize: nat)
    ensures Chunk<Row>([], maxSize) == [[]]
  {
  }

  /** A product row without a SKU between two products is labelled after the first. */
  lemma {:induction false} ContinuationRowLabel()
    ensures IndexFor([map["sku" := "A1"], map[], map["sku" := "A2"]], "catalog_product")
            == Some(["A1", "Associated to previous A1", "A2"])
  {
    var rows: Bulk := [map["sku" := "A1"], map[], map["sku" := "A2"]];
    assert CarriedIdentity(rows, "sku", 1) == "A1";
    assert Label(rows, "sku", 1) == "Associated to previous A1";
    assert Index(rows, "sku") == ["A1", "Associated to previous A1", "A2"];
  }

  /** Two failed positions under one message give one entry per identity. */
  lemma {:induction false} InvalidPriceReport()
    ensures FailureMap([("Invalid price", [1, 2])], ["A1", "Associated to previous A1", "A2"])
            == map["Associated to previous A1" := "Invalid price", "A2" := "Invalid price"]
  {
    var errors: ErrorReport := [("Invalid price", [1, 2])];
    assert errors[..0] == [];
    var index: IdentityIndex := ["A1", "Associated to previous A1", "A2"];
    var writes: seq<(nat, string)> := [(1, "Invalid price"), (2, "Invalid price")];
    assert Writes(errors) == writes;
    assert writes[..1] == [(1, "Invalid price")] && writes[..1][..0] == writes[..0];
    assert Apply(index, writes[..1]) == map["Associated to previous A1" := "Invalid price"];
  }
}
